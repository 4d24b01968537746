/** `checksum_16bit_be` (util/util.cpp): little-endian words are added in 32 bits, the sum is folded
    once, complemented and byte-swapped.  A carry out of the single fold is dropped. */
module Checksum {
  import opened Bytes

  /** The sum of the little-endian 16-bit words of `s`; an odd last byte counts as itself. */
  function WordSum(s: seq<byte>): nat {
    if |s| == 0 then 0
    else if |s| == 1 then s[0]
    else s[0] + 0x100 * s[1] + WordSum(s[2..])
  }

  /** The sum of the big-endian words of `s`, an odd last byte padded with zero on the right
      (section 1 of RFC 1071). */
  function BeWordSum(s: seq<byte>): nat {
    if |s| == 0 then 0
    else if |s| == 1 then 0x100 * s[0]
    else 0x100 * s[0] + s[1] + BeWordSum(s[2..])
  }

  /** Full end-around carry: fold until 16 bits are left. */
  function EndAround(n: nat): u16
    decreases n
  {
    if n < 0x1_0000 then n else EndAround(n / 0x1_0000 + n % 0x1_0000)
  }

  /** The checksum RFC 1071 defines. */
  function Rfc1071(s: seq<byte>): u16 {
    0xffff - EndAround(BeWordSum(s))
  }

  function Swap(w: u16): u16 {
    w % 0x100 * 0x100 + w / 0x100
  }

  /** What the single fold leaves of a 32-bit sum; the `&` of the source applies after the `+`. */
  function FoldOnce(sum: u32): u16 {
    (sum / 0x1_0000 + sum) % 0x1_0000
  }

  /** The fold of the sum of `s` produces a carry, which the source drops. */
  predicate Carries(s: seq<byte>) {
    var sum := Wrap32(WordSum(s));
    sum / 0x1_0000 + sum % 0x1_0000 >= 0x1_0000
  }

  /** The value `checksum_16bit_be` computes, as the loop method below is proved to do. */
  function Sum16(s: seq<byte>): u16 {
    Swap(0xffff - FoldOnce(Wrap32(WordSum(s))))
  }

  method Checksum16Be(src: seq<byte>) returns (r: u16)
    ensures r == Sum16(src)
  {
    hide Wrap32;
    var ret: u32 := 0;
    var buf: nat, len: nat := 0, |src|;
    assert src[0..] == src;
    while len > 1
      invariant buf + len == |src|
      invariant Wrap32(ret + WordSum(src[buf..])) == Wrap32(WordSum(src))
    {
      assert src[buf..][2..] == src[buf + 2..];
      var word: u16 := src[buf] + 0x100 * src[buf + 1] as int;
      WrapEarly(ret + word, WordSum(src[buf + 2..]));
      ret := Wrap32(ret + word);
      buf := buf + 2;
      len := len - 2;
    }
    if len > 0 {
      ret := Wrap32(ret + src[buf]);
    }
    WrapIdentity(ret);
    r := Finish(ret);
  }

  /** The last two statements: complement the fold in 32 bits and read its two low bytes, in the
      order a little-endian machine stores them, as a big-endian number. */
  method Finish(ret: u32) returns (r: u16)
    ensures r == Swap(0xffff - FoldOnce(ret))
  {
    var sum: u32 := Wrap32(ret / 0x1_0000 + ret);
    var complement: u32 := 0x1_0000_0000 - 1 - sum % 0x1_0000;
    var bytes: seq<byte> := [complement % 0x100, complement / 0x100 % 0x100];
    WrapsAlike(ret / 0x1_0000 + ret);
    LowBytes(complement, 0xffff - FoldOnce(ret));
    r := Get16(bytes, 0);
  }

  lemma WrapsAlike(n: nat)
    ensures n % 0x1_0000_0000 % 0x1_0000 == n % 0x1_0000
  {
  }

  lemma LowBytes(c: u32, w: u16)
    requires c == 0xffff_0000 + w
    ensures c % 0x100 == w % 0x100
    ensures c / 0x100 % 0x100 == w / 0x100
  {
    var high, low := w / 0x100, w % 0x100;
    Digits(0xff_ff00 + high, low);
    Digits(0xffff, high);
  }

  /** Quotient and remainder of a number written with a low octet. */
  lemma Digits(high: int, low: byte)
    ensures (0x100 * high + low) / 0x100 == high && (0x100 * high + low) % 0x100 == low
  {
  }

  // ----- arithmetic of the sums

  lemma {:induction false} WordSumConcat(a: seq<byte>, b: seq<byte>)
    requires |a| % 2 == 0
    ensures WordSum(a + b) == WordSum(a) + WordSum(b)
  {
    if |a| == 0 {
      assert a + b == b;
    } else {
      WordSumConcat(a[2..], b);
      assert (a + b)[2..] == a[2..] + b;
    }
  }

  lemma {:induction false} WordSumBound(s: seq<byte>)
    ensures WordSum(s) <= 0xffff * (|s| / 2) + 0xff * (|s| % 2)
  {
    if |s| > 1 {
      WordSumBound(s[2..]);
    }
  }

  /** No buffer of at most 131073 bytes overflows the 32-bit sum, nor reaches its last value. */
  lemma NoOverflow(s: seq<byte>)
    requires |s| <= 0x2_0001
    ensures WordSum(s) < 0xffff_ffff
  {
    WordSumBound(s);
  }

  /** End-around carry keeps the residue modulo 65535 and tells zero from the other multiples. */
  lemma {:induction false} EndAroundResidue(n: nat)
    ensures EndAround(n) % 0xffff == n % 0xffff
    ensures EndAround(n) == 0 <==> n == 0
    decreases n
  {
    if n >= 0x1_0000 {
      var high, low := n / 0x1_0000, n % 0x1_0000;
      EndAroundResidue(high + low);
      ResidueShift(high + low, high);
    }
  }

  /** 16-bit words with the same residue that are zero together are equal. */
  lemma ResidueDetermines(a: u16, b: u16)
    requires a % 0xffff == b % 0xffff
    requires a == 0 <==> b == 0
    ensures a == b
  {
  }

  lemma ResidueShift(x: int, k: int)
    ensures (x + 0xffff * k) % 0xffff == x % 0xffff
  {
  }

  lemma SameResidueTimes256(a: nat, b: nat)
    requires a % 0xffff == b % 0xffff
    ensures 0x100 * a % 0xffff == 0x100 * b % 0xffff
  {
    ResidueShift(0x100 * (a % 0xffff), 0x100 * (a / 0xffff));
    ResidueShift(0x100 * (b % 0xffff), 0x100 * (b / 0xffff));
  }

  lemma {:induction false} SwappedSums(s: seq<byte>) returns (k: nat)
    ensures 0x100 * WordSum(s) == BeWordSum(s) + 0xffff * k
    ensures BeWordSum(s) == 0 <==> WordSum(s) == 0
  {
    if |s| <= 1 {
      k := 0;
    } else {
      k := SwappedSums(s[2..]);
      k := k + s[1];
    }
  }

  /** Byte-order independence (section 2(B) of RFC 1071): adding little-endian words and swapping
      the folded sum gives the folded sum of the big-endian words. */
  lemma {:induction false} ByteOrder(s: seq<byte>)
    ensures Swap(EndAround(WordSum(s))) == EndAround(BeWordSum(s))
  {
    hide Swap, EndAround, WordSum, BeWordSum;
    var n, m := WordSum(s), BeWordSum(s);
    EndAroundResidue(n);
    EndAroundResidue(m);
    var k := SwappedSums(s);
    ResidueShift(m, k);
    SwapIsTimes256(EndAround(n));
    SameResidueTimes256(EndAround(n), n);
    ResidueDetermines(Swap(EndAround(n)), EndAround(m));
  }

  lemma SwapIsTimes256(w: u16)
    ensures Swap(w) % 0xffff == 0x100 * w % 0xffff
    ensures Swap(w) == 0 <==> w == 0
  {
    assert 0x100 * w == Swap(w) + 0xffff * (w / 0x100);
    ResidueShift(Swap(w), w / 0x100);
  }

  // ----- the two uses: verifying and generating

  /** Verification, for buffers of any length: the result is zero exactly when the 32-bit sum is a
      positive multiple of 65535 other than the largest one. */
  lemma {:induction false} VerificationOfWrappedSum(s: seq<byte>)
    ensures Sum16(s) == 0 <==> var n := Wrap32(WordSum(s)); 0 < n < 0xffff_ffff && n % 0xffff == 0
  {
    hide WordSum, Wrap32, Swap, FoldOnce, EndAround;
    VerificationOfSum(Wrap32(WordSum(s)));
  }

  /** Up to 131073 bytes verification is exact despite the single fold: the result is zero exactly
      when the word sum is a positive multiple of 65535, which is when full end-around carry leaves
      all ones (section 1 of RFC 1071). */
  lemma {:induction false} VerificationExact(s: seq<byte>)
    requires |s| <= 0x2_0001
    ensures Sum16(s) == 0 <==> WordSum(s) > 0 && WordSum(s) % 0xffff == 0
    ensures Sum16(s) == 0 <==> EndAround(BeWordSum(s)) == 0xffff
  {
    hide Swap, FoldOnce, EndAround, WordSum, BeWordSum;
    NoOverflow(s);
    ByteOrder(s);
    VerificationOfSum(WordSum(s));
  }

  /** The result is zero when it should be, and only then. */
  predicate VerifiedRightly(s: seq<byte>) {
    Sum16(s) == 0 <==> EndAround(BeWordSum(s)) == 0xffff
  }

  /** The lengths for which verification is right on every buffer are exactly those up to 131073: of
      any greater length there is a buffer, ones and then zeros, that RFC 1071 accepts and the code
      refuses. */
  lemma VerificationExactLengths(length: nat)
    ensures (forall s: seq<byte> :: |s| == length ==> VerifiedRightly(s)) <==> length <= 0x2_0001
  {
    if length <= 0x2_0001 {
      forall s: seq<byte> | |s| == length
        ensures VerifiedRightly(s)
      {
        hide Sum16, EndAround, WordSum, BeWordSum;
        VerificationExact(s);
      }
    } else {
      var s := OnesThenZeros(length);
      OnesThenZerosRefused(length);
      assert |s| == length && !VerifiedRightly(s);
    }
  }

  function OnesThenZeros(length: nat): (s: seq<byte>)
    requires length >= 0x2_0002
    ensures |s| == length
  {
    seq<byte>(0x2_0002, i => 0xff) + seq<byte>(length - 0x2_0002, i => 0)
  }

  lemma OnesThenZerosRefused(length: nat)
    requires length >= 0x2_0002
    ensures !VerifiedRightly(OnesThenZeros(length))
  {
    var ones, zeros := seq<byte>(0x2_0002, i => 0xff), seq<byte>(length - 0x2_0002, i => 0);
    var s := ones + zeros;
    hide Swap, FoldOnce, EndAround, WordSum, BeWordSum;
    ConstantSum(ones, 0xff);
    ConstantSum(zeros, 0);
    WordSumConcat(ones, zeros);
    BeWordSumConcat(ones, zeros);
    VerificationOfWrappedSum(s);
    EndAroundResidue(BeWordSum(s));
  }

  lemma {:induction false} ConstantSum(s: seq<byte>, b: byte)
    requires (|s| % 2 == 0 || b == 0) && forall i :: 0 <= i < |s| ==> s[i] == b
    ensures WordSum(s) == BeWordSum(s) == 0x101 * b as int * (|s| / 2)
  {
    if |s| > 1 {
      ConstantSum(s[2..], b);
    }
  }

  lemma {:induction false} BeWordSumConcat(a: seq<byte>, b: seq<byte>)
    requires |a| % 2 == 0
    ensures BeWordSum(a + b) == BeWordSum(a) + BeWordSum(b)
  {
    if |a| == 0 {
      assert a + b == b;
    } else {
      BeWordSumConcat(a[2..], b);
      assert (a + b)[2..] == a[2..] + b;
    }
  }

  lemma BeWordOf(c: u16)
    ensures BeWordSum(Put16(c)) == c
  {
    assert Put16(c)[2..] == [];
  }

  lemma BeSumOfPut32(v: u32)
    ensures BeWordSum(Put32(v)) == v / 0x1_0000 + v % 0x1_0000
  {
    hide BeWordSum, Put16;
    BeWordSumConcat(Put16(v / 0x1_0000), Put16(v % 0x1_0000));
    BeWordOf(v / 0x1_0000);
    BeWordOf(v % 0x1_0000);
  }

  lemma VerificationOfSum(n: u32)
    ensures Swap(0xffff - FoldOnce(n)) == 0 <==> 0 < n < 0xffff_ffff && n % 0xffff == 0
    ensures n < 0xffff_ffff ==> (Swap(0xffff - FoldOnce(n)) == 0 <==> Swap(EndAround(n)) == 0xffff)
  {
    FoldIsOnes(n);
    EndAroundResidue(n);
    SwapIsTimes256(0xffff - FoldOnce(n));
    SwapIsOnes(EndAround(n));
  }

  lemma FoldIsOnes(n: u32)
    ensures n < 0xffff_ffff ==> (FoldOnce(n) == 0xffff <==> n > 0 && n % 0xffff == 0)
    ensures n == 0xffff_ffff ==> FoldOnce(n) != 0xffff && n % 0xffff == 0
  {
    var high, low := n / 0x1_0000, n % 0x1_0000;
    ResidueShift(high + low, high);
    assert n == high + low + 0xffff * high;
  }

  lemma SwapIsOnes(w: u16)
    ensures Swap(w) == 0xffff <==> w == 0xffff
    ensures w % 0xffff == 0 <==> w == 0 || w == 0xffff
  {
  }

  lemma SwapOctets(high: byte, low: byte)
    ensures Swap(0x100 * high as int + low) == 0x100 * low as int + high
  {
    Digits(high, low);
  }

  lemma SwapComplement(w: u16)
    ensures Swap(Swap(w)) == w
    ensures Swap(0xffff - w) == 0xffff - Swap(w)
  {
    var high, low := w / 0x100, w % 0x100;
    hide Swap;
    SwapOctets(high, low);
    SwapOctets(low, high);
    SwapOctets(0xff - high, 0xff - low);
  }

  /** Generation agrees with RFC 1071 exactly when the fold does not carry; when it does, the word
      before the swap is exactly one greater than the correct one. */
  lemma {:induction false} GenerationExact(s: seq<byte>)
    requires |s| <= 0x2_0001
    ensures Sum16(s) == Rfc1071(s) <==> !Carries(s)
    ensures Carries(s) ==> Swap(Sum16(s)) == Swap(Rfc1071(s)) + 1
  {
    hide Swap, FoldOnce, EndAround, WordSum, BeWordSum;
    NoOverflow(s);
    ByteOrder(s);
    FoldAgainstEndAround(WordSum(s));
    SwapsCompared(0xffff - FoldOnce(WordSum(s)), EndAround(WordSum(s)));
  }

  lemma SwapsCompared(a: u16, b: u16)
    ensures Swap(a) == 0xffff - Swap(b) <==> a == 0xffff - b
    ensures Swap(Swap(a)) == a && Swap(0xffff - Swap(b)) == 0xffff - b
  {
    SwapComplement(b);
    SwapComplement(a);
    SwapComplement(0xffff - b);
  }

  lemma FoldAgainstEndAround(n: u32)
    ensures n / 0x1_0000 + n % 0x1_0000 < 0x1_0000 ==> FoldOnce(n) == EndAround(n)
    ensures n / 0x1_0000 + n % 0x1_0000 >= 0x1_0000 ==> FoldOnce(n) + 1 == EndAround(n)
  {
    var high, low := n / 0x1_0000, n % 0x1_0000;
    assert FoldOnce(n) == (high + low) % 0x1_0000;
    assert n >= 0x1_0000 ==> EndAround(n) == EndAround(high + low);
    assert high + low >= 0x1_0000 ==> EndAround(high + low) == high + low - 0xffff;
  }

  // ----- a checksum field inside the buffer

  /** A buffer with the 16-bit value `c` stored, big-endian, between `before` and `after`. */
  function WithField(before: seq<byte>, c: u16, after: seq<byte>): (s: seq<byte>)
    ensures |s| == |before| + 2 + |after|
  {
    before + Put16(c) + after
  }

  lemma FieldSum(before: seq<byte>, c: u16, after: seq<byte>)
    requires |before| % 2 == 0
    ensures WordSum(WithField(before, c, after)) == WordSum(WithField(before, 0, after)) + Swap(c)
  {
    WordSumConcat(before + Put16(c), after);
    WordSumConcat(before + Put16(0), after);
    WordSumConcat(before, Put16(c));
    WordSumConcat(before, Put16(0));
    WordOf(c);
    WordOf(0);
  }

  lemma WordOf(c: u16)
    ensures WordSum(Put16(c)) == Swap(c)
  {
    assert Put16(c)[2..] == [];
  }

  /** Zero an even-offset checksum field, store the checksum computed then, and the whole buffer
      verifies exactly when the fold of the generating sum did not carry. */
  lemma {:induction false} GenerateThenVerify(before: seq<byte>, after: seq<byte>)
    requires |before| % 2 == 0 && |before| + 2 + |after| <= 0x2_0001
    ensures var zeroed := WithField(before, 0, after);
            Sum16(WithField(before, Sum16(zeroed), after)) == 0 <==> !Carries(zeroed)
  {
    var zeroed := WithField(before, 0, after);
    var n := WordSum(zeroed);
    hide *;
    NoOverflow(zeroed);
    WrapIdentity(n);
    StoredWord(zeroed);
    FieldSum(before, Sum16(zeroed), after);
    VerificationExact(WithField(before, Sum16(zeroed), after));
    ComplementCompletes(n, WordSum(WithField(before, Sum16(zeroed), after)));
  }

  /** The word that storing a computed checksum puts into memory. */
  lemma StoredWord(s: seq<byte>)
    ensures Swap(Sum16(s)) == 0xffff - FoldOnce(Wrap32(WordSum(s)))
    ensures Carries(s) <==> var n := Wrap32(WordSum(s)); n / 0x1_0000 + n % 0x1_0000 >= 0x1_0000
  {
    hide WordSum, Wrap32;
    SwapComplement(0xffff - FoldOnce(Wrap32(WordSum(s))));
  }

  lemma ComplementCompletes(n: u32, total: int)
    requires total == n + 0xffff - FoldOnce(n)
    ensures total > 0 && (total % 0xffff == 0 <==> n / 0x1_0000 + n % 0x1_0000 < 0x1_0000)
  {
    var high, low := n / 0x1_0000, n % 0x1_0000;
    assert FoldOnce(n) == (high + low) % 0x1_0000;
    if high + low < 0x1_0000 {
      ResidueShift(0, high + 1);
      assert total == 0 + 0xffff * (high + 1);
    } else {
      ResidueShift(1, high + 2);
      assert total == 1 + 0xffff * (high + 2);
    }
  }

  // ----- the carry within reach

  /** Three words that bring a sum to one whose fold carries: its low half becomes all ones, and its
      high half greater than zero. */
  function Filler(sum: nat): (s: seq<byte>)
    ensures |s| == 6
  {
    Put16(0xffff) + Put16(0x100) + Put16(Swap(0xffff - sum % 0x1_0000))
  }

  /** Whatever precedes, six more bytes can make the fold carry. */
  lemma FilledCarries(s: seq<byte>)
    requires |s| % 2 == 0 && |s| <= 0x1_0000
    ensures WordSum(s + Filler(WordSum(s))) == 0x1_0000 * (WordSum(s) / 0x1_0000 + 1) + 0xffff
    ensures Carries(s + Filler(WordSum(s)))
  {
    hide *;
    var n, t := WordSum(s), s + Filler(WordSum(s));
    FillerSum(n);
    WordSumConcat(s, Filler(n));
    NoOverflow(t);
    WrapIdentity(WordSum(t));
    StoredWord(t);
    AllOnesCarries(n / 0x1_0000 + 1, WordSum(t));
  }

  lemma FillerSum(n: nat)
    ensures WordSum(Filler(n)) == 0x1_ffff - n % 0x1_0000
  {
    var w: u16 := 0xffff - n % 0x1_0000;
    hide WordSum, Put16, Swap;
    WordSumConcat(Put16(0xffff) + Put16(0x100), Put16(Swap(w)));
    WordSumConcat(Put16(0xffff), Put16(0x100));
    WordOf(0xffff);
    WordOf(0x100);
    WordOf(Swap(w));
    SwapComplement(w);
    SwapOctets(0xff, 0xff);
    SwapOctets(1, 0);
  }

  lemma AllOnesCarries(high: nat, n: nat)
    requires n == 0x1_0000 * high + 0xffff && high > 0 && n < 0x1_0000_0000
    ensures n / 0x1_0000 + n % 0x1_0000 >= 0x1_0000
  {
  }

  /** The word that completes a sum to a positive multiple of 65535. */
  function Completer(sum: nat): (s: seq<byte>)
    ensures |s| == 2
  {
    Put16(Swap(0xffff - sum % 0xffff))
  }

  /** Whatever precedes, two more bytes can make the correct checksum zero. */
  lemma CompletedIsZero(s: seq<byte>)
    requires |s| % 2 == 0 && |s| <= 0x1_0000
    ensures var t := s + Completer(WordSum(s)); Rfc1071(t) == 0 && !Carries(t)
  {
    hide WordSum, Put16, Swap, EndAround, BeWordSum, Carries, Sum16, Completer;
    var n, t := WordSum(s), s + Completer(WordSum(s));
    WordSumConcat(s, Completer(n));
    CompleterSum(n);
    ResidueShift(0, n / 0xffff + 1);
    VerificationExact(t);
    GenerationExact(t);
  }

  lemma CompleterSum(n: nat)
    ensures n + WordSum(Completer(n)) == 0xffff * (n / 0xffff + 1)
  {
    var w: u16 := 0xffff - n % 0xffff;
    hide WordSum, Put16, Swap;
    WordOf(Swap(w));
    SwapComplement(w);
  }

  lemma SumOfPut32(v: u32)
    ensures WordSum(Put32(v)) == Swap(v / 0x1_0000) + Swap(v % 0x1_0000)
  {
    hide WordSum, Put16, Swap;
    WordSumConcat(Put16(v / 0x1_0000), Put16(v % 0x1_0000));
    WordOf(v / 0x1_0000);
    WordOf(v % 0x1_0000);
  }
}
