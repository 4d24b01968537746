/** Octets, the fixed-width unsigned integers of the wire formats, and the big-endian
    unions `uint16_be` and `uint32_be` that every header is made of. */
module Bytes {
  type byte = x: int | 0 <= x < 0x100
  type u16 = x: int | 0 <= x < 0x1_0000
  type u32 = x: int | 0 <= x < 0x1_0000_0000

  /** An address, by the number its four octets make; addresses are compared by that number. */
  type Ipv4 = u32
  type Mac = s: seq<byte> | |s| == 6 witness [0, 0, 0, 0, 0, 0]


  /** What a 32-bit unsigned variable keeps of a value. */
  function Wrap32(n: int): u32 {
    n % 0x1_0000_0000
  }

  /** Wrapping early or late makes no difference to a sum. */
  lemma WrapEarly(a: int, b: int)
    ensures Wrap32(Wrap32(a) + b) == Wrap32(a + b)
  {
  }

  lemma WrapIdentity(a: u32)
    ensures Wrap32(a) == a
  {
  }

  function Put16(v: u16): (s: seq<byte>)
    ensures |s| == 2
  {
    [v / 0x100, v % 0x100]
  }

  function Put32(v: u32): (s: seq<byte>)
    ensures |s| == 4
  {
    Put16(v / 0x1_0000) + Put16(v % 0x1_0000)
  }

  function Get16(s: seq<byte>, at: nat): u16
    requires at + 2 <= |s|
  {
    0x100 * s[at] as int + s[at + 1]
  }

  function Get32(s: seq<byte>, at: nat): u32
    requires at + 4 <= |s|
  {
    0x1_0000 * (Get16(s, at) as int) + Get16(s, at + 2)
  }

  /** Reading back a stored field gives its value, and storing a value read gives its bytes. */
  lemma RoundTrip16(v: u16, s: seq<byte>, at: nat)
    requires at + 2 <= |s|
    ensures Get16(Put16(v), 0) == v
    ensures Put16(Get16(s, at)) == s[at..at + 2]
  {
  }

  lemma RoundTrip32(v: u32, s: seq<byte>, at: nat)
    requires at + 4 <= |s|
    ensures Get32(Put32(v), 0) == v
    ensures Put32(Get32(s, at)) == s[at..at + 4]
  {
    hide Put16, Get16;
    FieldReads(Put32(v), 0, Put16(v / 0x1_0000));
    FieldReads(Put32(v), 2, Put16(v % 0x1_0000));
    RoundTrip16(v / 0x1_0000, s, at);
    RoundTrip16(v % 0x1_0000, s, at + 2);
    assert s[at..at + 4] == s[at..at + 2] + s[at + 2..at + 4];
  }

  /** A field read inside a buffer is the field read from a copy of its bytes. */
  lemma FieldReads(s: seq<byte>, at: nat, field: seq<byte>)
    requires at + |field| <= |s| && s[at..at + |field|] == field
    ensures |field| == 2 ==> Get16(s, at) == Get16(field, 0)
    ensures |field| == 4 ==> Get32(s, at) == Get32(field, 0)
  {
    assert forall j :: 0 <= j < |field| ==> field[j] == s[at..at + |field|][j] == s[at + j];
  }

  /** Part of a stretch of `m` that equals `s` is that part of `s`. */
  lemma Within(m: seq<byte>, at: nat, s: seq<byte>, i: nat, j: nat)
    requires at + |s| <= |m| && m[at..at + |s|] == s && i <= j <= |s|
    ensures m[at + i..at + j] == s[i..j]
    ensures i < |s| ==> m[at + i] == s[i]
  {
    forall k | 0 <= k < j - i
      ensures m[at + i..at + j][k] == s[i..j][k]
    {
      assert m[at + (i + k)] == m[at..at + |s|][i + k];
    }
    assert i < |s| ==> m[at + i] == m[at..at + |s|][i];
  }

  /** memcpy of `src` into `dst` from index `at` on. */
  method CopyInto(dst: array<byte>, at: nat, src: seq<byte>)
    requires at + |src| <= dst.Length
    modifies dst
    ensures dst[..at + |src|] == old(dst[..at]) + src
    ensures forall j :: at + |src| <= j < dst.Length ==> dst[j] == old(dst[j])
  {
    forall j | 0 <= j < |src| {
      dst[at + j] := src[j];
    }
  }
}
