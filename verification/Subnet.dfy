/** Which addresses are on the subnet: the octet-wise `&` of Ipv4Subnet::contains (defs.h:249-254) against
    the bits of the three addresses, and against CIDR prefixes. */
module Subnet {
  import opened Bytes
  import opened Link

  function Pow2(n: nat): (p: nat)
    ensures p > 0
  {
    if n == 0 then 1 else 2 * Pow2(n - 1)
  }

  /** The bit of weight 2^i is set. */
  predicate Bit(n: nat, i: nat) {
    if i == 0 then n % 2 == 1 else Bit(n / 2, i - 1)
  }

  /** At this place the network has a bit exactly if both the address and the mask have it. */
  predicate BitMasked(addr: nat, mask: nat, network: nat, i: nat) {
    Bit(network, i) <==> Bit(addr, i) && Bit(mask, i)
  }

  predicate OnSubnet(host: Host, addr: Ipv4) {
    forall i :: 0 <= i < 32 ==> BitMasked(addr, host.mask, host.network, i)
  }

  /** The same for the lowest `bits` bits of any three numbers. */
  predicate Masked(a: nat, m: nat, n: nat, bits: nat) {
    bits > 0 ==> (n % 2 == 1 <==> a % 2 == 1 && m % 2 == 1) && Masked(a / 2, m / 2, n / 2, bits - 1)
  }

  lemma BitHalved(a: nat, m: nat, n: nat, i: nat)
    ensures BitMasked(a, m, n, 0) <==> (n % 2 == 1 <==> a % 2 == 1 && m % 2 == 1)
    ensures BitMasked(a, m, n, i + 1) <==> BitMasked(a / 2, m / 2, n / 2, i)
  {
  }

  lemma {:induction false} MaskedIsBits(a: nat, m: nat, n: nat, bits: nat)
    ensures Masked(a, m, n, bits) <==> forall i :: 0 <= i < bits ==> BitMasked(a, m, n, i)
  {
    hide BitMasked;
    if bits > 0 {
      MaskedIsBits(a / 2, m / 2, n / 2, bits - 1);
      BitHalved(a, m, n, 0);
      forall i | 0 < i < bits
        ensures BitMasked(a, m, n, i) <==> BitMasked(a / 2, m / 2, n / 2, i - 1)
      {
        BitHalved(a, m, n, i - 1);
      }
      forall i | 0 <= i < bits - 1
        ensures BitMasked(a / 2, m / 2, n / 2, i) <==> BitMasked(a, m, n, i + 1)
      {
        BitHalved(a, m, n, i);
      }
    }
  }

  // ----- the operator

  lemma {:induction false} AndIsMasked(a: byte, m: byte, n: byte, bits: nat)
    requires a < Pow2(bits) && n < Pow2(bits)
    ensures And(a, m) == n <==> Masked(a, m, n, bits)
  {
    if bits > 0 {
      AndUnfolds(a, m);
      AndIsMasked(a / 2, m / 2, n / 2, bits - 1);
    }
  }

  lemma AndUnfolds(a: nat, m: nat)
    ensures And(a, m) / 2 == And(a / 2, m / 2)
    ensures And(a, m) % 2 == if a % 2 == 1 && m % 2 == 1 then 1 else 0
  {
  }

  // ----- from octets to addresses

  /** The low `low` bits and those above them are masked separately. */
  lemma {:induction false} MaskedParts(a: nat, m: nat, n: nat, a': nat, m': nat, n': nat, low: nat, high: nat)
    requires a' < Pow2(low) && m' < Pow2(low) && n' < Pow2(low)
    ensures Masked(Pow2(low) * a + a', Pow2(low) * m + m', Pow2(low) * n + n', low + high)
            <==> Masked(a', m', n', low) && Masked(a, m, n, high)
    decreases low
  {
    if low > 0 {
      MaskedParts(a, m, n, a' / 2, m' / 2, n' / 2, low - 1, high);
      Doubled(low, a, a');
      Doubled(low, m, m');
      Doubled(low, n, n');
    }
  }

  lemma Doubled(low: nat, a: nat, a': nat)
    requires low > 0
    ensures (Pow2(low) * a + a') % 2 == a' % 2 && (Pow2(low) * a + a') / 2 == Pow2(low - 1) * a + a' / 2
  {
    assert Pow2(low) * a == 2 * (Pow2(low - 1) * a);
  }

  lemma OctetsFirst(a: u32, m: u32, n: u32, bits: nat)
    ensures Masked(a, m, n, 8 + bits) <==>
            Masked(a % 0x100, m % 0x100, n % 0x100, 8) && Masked(a / 0x100, m / 0x100, n / 0x100, bits)
  {
    assert Pow2(8) == 0x100;
    MaskedParts(a / 0x100, m / 0x100, n / 0x100, a % 0x100, m % 0x100, n % 0x100, 8, bits);
  }

  lemma OctetsOf(v: u32)
    ensures var s := Put32(v);
            && s[3] == v % 0x100 && s[2] == v / 0x100 % 0x100
            && s[1] == v / 0x100 / 0x100 % 0x100 && s[0] == v / 0x100 / 0x100 / 0x100
  {
  }

  /** The four masked octets are the network's exactly when the 32 bits are, for every mask. */
  lemma {:induction false} ContainsMeans(host: Host, addr: Ipv4)
    ensures Contains(host, addr) <==> OnSubnet(host, addr)
  {
    MaskedIsBits(addr, host.mask, host.network, 32);
    hide And, Masked, Bit, Put32, BitMasked;
    FourOctets(addr, host.mask, host.network);
    OctetMasked(addr, host.mask, host.network, 0);
    OctetMasked(addr, host.mask, host.network, 1);
    OctetMasked(addr, host.mask, host.network, 2);
    OctetMasked(addr, host.mask, host.network, 3);
  }

  lemma OctetMasked(a: u32, m: u32, n: u32, i: nat)
    requires i < 4
    ensures And(Put32(a)[i], Put32(m)[i]) == Put32(n)[i] <==> Masked(Put32(a)[i], Put32(m)[i], Put32(n)[i], 8)
  {
    assert Pow2(8) == 0x100;
    hide And, Masked, Put32, Pow2;
    AndIsMasked(Put32(a)[i], Put32(m)[i], Put32(n)[i], 8);
  }

  lemma FourOctets(a: u32, m: u32, n: u32)
    ensures Masked(a, m, n, 32) <==>
            && Masked(Put32(a)[0], Put32(m)[0], Put32(n)[0], 8) && Masked(Put32(a)[1], Put32(m)[1], Put32(n)[1], 8)
            && Masked(Put32(a)[2], Put32(m)[2], Put32(n)[2], 8) && Masked(Put32(a)[3], Put32(m)[3], Put32(n)[3], 8)
  {
    hide *;
    OctetsOf(a);
    OctetsOf(m);
    OctetsOf(n);
    OctetsFirst(a, m, n, 24);
    OctetsFirst(a / 0x100, m / 0x100, n / 0x100, 16);
    OctetsFirst(a / 0x100 / 0x100, m / 0x100 / 0x100, n / 0x100 / 0x100, 8);
  }

  // ----- prefixes

  /** The mask is `p` ones and then zeros. */
  predicate HasPrefix(host: Host, p: nat) {
    p <= 32 && host.mask == Pow2(32) - Pow2(32 - p)
  }

  lemma {:induction false} MaskedByOnes(a: nat, n: nat, bits: nat)
    requires a < Pow2(bits) && n < Pow2(bits)
    ensures Masked(a, Pow2(bits) - 1, n, bits) <==> n == a
  {
    if bits > 0 {
      assert (Pow2(bits) - 1) % 2 == 1 && (Pow2(bits) - 1) / 2 == Pow2(bits - 1) - 1;
      MaskedByOnes(a / 2, n / 2, bits - 1);
    }
  }

  lemma {:induction false} MaskedByZeros(a: nat, n: nat, bits: nat)
    requires n < Pow2(bits)
    ensures Masked(a, 0, n, bits) <==> n == 0
  {
    if bits > 0 {
      MaskedByZeros(a / 2, n / 2, bits - 1);
    }
  }

  lemma {:induction false} Pow2Sum(m: nat, n: nat)
    ensures Pow2(m + n) == Pow2(m) * Pow2(n)
  {
    if m > 0 {
      Pow2Sum(m - 1, n);
    }
  }

  /** With a prefix of `p` bits for a mask, a network that has no bits beyond the prefix contains exactly
      the addresses that share the prefix; any other contains nothing. */
  lemma {:induction false} PrefixSubnet(host: Host, addr: Ipv4, p: nat)
    requires HasPrefix(host, p)
    ensures var size := Pow2(32 - p);
            && (Contains(host, addr) <==> host.network % size == 0 && addr / size == host.network / size)
            && (OnSubnet(host, addr) <==> Contains(host, addr))
  {
    hide Contains, BitMasked, Masked, Pow2;
    ContainsMeans(host, addr);
    MaskedIsBits(addr, host.mask, host.network, 32);
    Pow2Sum(32 - p, p);
    Pow2Of32();
    assert Pow2(32 - p) * (Pow2(p) - 1) == host.mask;
    MaskedByPrefix(addr, host.network, 32 - p, p);
  }

  lemma MaskedByPrefix(a: nat, n: nat, low: nat, high: nat)
    requires a < Pow2(low) * Pow2(high) && n < Pow2(low) * Pow2(high)
    ensures Masked(a, Pow2(low) * (Pow2(high) - 1), n, low + high) <==>
            n % Pow2(low) == 0 && a / Pow2(low) == n / Pow2(low)
  {
    hide *;
    var a', a'', n', n'' := a / Pow2(low), a % Pow2(low), n / Pow2(low), n % Pow2(low);
    Quotient(a, Pow2(low), Pow2(high));
    Quotient(n, Pow2(low), Pow2(high));
    MaskedParts(a', Pow2(high) - 1, n', a'', 0, n'', low, high);
    MaskedByOnes(a', n', high);
    MaskedByZeros(a'', n'', low);
  }

  lemma Pow2Of32()
    ensures Pow2(32) == 0x1_0000_0000
  {
    assert Pow2(8) == 0x100;
    Pow2Sum(8, 8);
    Pow2Sum(16, 16);
  }

  lemma Quotient(v: nat, size: nat, count: nat)
    requires size > 0 && v < size * count
    ensures v == size * (v / size) + v % size && v % size < size && v / size < count
  {
    Product(size, v / size, count);
  }

  lemma Product(size: nat, a: nat, b: nat)
    ensures a >= b ==> size * a >= size * b
  {
  }
}
