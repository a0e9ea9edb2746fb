/** IP rules: addresses and prefixes as numbers, and the unmapping of IPv4-in-IPv6
    forms that both rules and queries go through. */
module IpRules {
  import opened Arith
  import opened Bytes

  const TWO32: nat := 0x1_0000_0000
  const TWO128: nat := 0x1_0000_0000_0000_0000_0000_0000_0000_0000
  /** ::ffff:0:0, where the mapped IPv4 addresses start. */
  const MAPPED: nat := 0xFFFF * TWO32

  datatype RawIP = V4(n: nat) | V6(n: nat)

  predicate WellFormed(ip: RawIP)
  {
    if ip.V4? then ip.n < TWO32 else ip.n < TWO128
  }

  type IP = ip: RawIP | WellFormed(ip) witness V4(0)

  function BitLen(ip: IP): (n: nat)
  {
    if ip.V4? then 32 else 128
  }

  predicate Is4In6(ip: IP)
  {
    ip.V6? && ip.n / TWO32 == 0xFFFF
  }

  function Unmap(ip: IP): (r: IP)
  {
    if Is4In6(ip) then V4(ip.n % TWO32) else ip
  }

  function Mapped(v: nat): (ip: IP)
    requires v < TWO32
    ensures Is4In6(ip)
  {
    V6(MAPPED + v)
  }

  function Pow2(n: nat): (p: nat)
    ensures p >= 1
  {
    if n == 0 then 1 else 2 * Pow2(n - 1)
  }

  /** A prefix: an address and a number of leading bits. */
  datatype Prefix = Prefix(ip: IP, bits: nat)

  /** netip.Addr.Prefix: refuses lengths that the address does not have. */
  function ToPrefix(ip: IP, bits: int): (p: Option<Prefix>)
  {
    if bits < 0 || bits > BitLen(ip) then None else Some(Prefix(ip, bits))
  }

  /** Same family and same leading bits. */
  predicate Contains(p: Prefix, ip: IP)
    requires p.bits <= BitLen(p.ip)
  {
    p.ip.V4? == ip.V4? && SameLeading(p.ip.n, ip.n, BitLen(ip) - p.bits)
  }

  /** Equal apart from the last `free` bits. */
  predicate SameLeading(a: nat, b: nat, free: nat)
  {
    a / Pow2(free) == b / Pow2(free)
  }

  function ToPrefixUnmapped(ip: IP, bits: int): (p: Option<Prefix>)
    ensures p.Some? ==> p.value.bits <= BitLen(p.value.ip)
  {
    if Is4In6(ip) then ToPrefix(Unmap(ip), bits - 96) else ToPrefix(ip, bits)
  }

  predicate MatchIP(rules: seq<Prefix>, ip: IP)
  {
    exists i :: 0 <= i < |rules| && rules[i].bits <= BitLen(rules[i].ip) && Contains(rules[i], Unmap(ip))
  }

  // ------------------------------------------------------------------

  lemma {:induction false} Pow2Splits(m: nat, n: nat)
    ensures Pow2(m + n) == Pow2(m) * Pow2(n)
    decreases m
  {
    if m > 0 {
      Pow2Splits(m - 1, n);
      assert 2 * (Pow2(m - 1) * Pow2(n)) == 2 * Pow2(m - 1) * Pow2(n);
    } else {
      assert Pow2(0 + n) == 1 * Pow2(n);
    }
  }

  lemma Pow2Of32()
    ensures Pow2(32) == TWO32
  {
    Pow2Splits(16, 16);
    Pow2Splits(8, 8);
    assert Pow2(4) == 16 && Pow2(8) == 16 * Pow2(4);
  }

  /** Dropping low bits of a sum whose first part has none. */
  lemma DivShifted(high: nat, v: nat, d: nat)
    requires d > 0
    ensures (high * d + v) / d == high + v / d
  {
    assert v == d * (v / d) + v % d;
    assert high * d + v == d * (high + v / d) + v % d;
    DivModUnique(high * d + v, d, high + v / d, v % d);
  }

  /** 2^free divides 2^32, so it divides the start of the mapped range. */
  lemma FreeBits(free: nat) returns (rest: nat)
    requires free <= 32
    ensures Pow2(free) * rest == TWO32 && rest > 0
  {
    Pow2Of32();
    Pow2Splits(free, 32 - free);
    rest := Pow2(32 - free);
  }

  /** Mapping shifts both sides of a comparison alike while at most 32 bits are free. */
  lemma SameLeadingMapped(v: nat, w: nat, free: nat)
    requires free <= 32
    ensures SameLeading(MAPPED + v, MAPPED + w, free) <==> SameLeading(v, w, free)
  {
    var rest := FreeBits(free);
    ShiftBoth(v, w, Pow2(free), rest);
  }

  lemma ShiftBoth(v: nat, w: nat, d: nat, rest: nat)
    requires d > 0 && d * rest == TWO32
    ensures (MAPPED + v) / d == (MAPPED + w) / d <==> v / d == w / d
  {
    var high := 0xFFFF * rest;
    assert high * d == 0xFFFF * (d * rest);
    DivShifted(high, v, d);
    DivShifted(high, w, d);
  }

  lemma MappedParts(ip: IP)
    requires Is4In6(ip)
    ensures ip == Mapped(ip.n % TWO32) && Unmap(ip) == V4(ip.n % TWO32)
  {
  }

  /** A rule over a mapped base is accepted exactly for lengths 96 to 128, and is then one
      over the IPv4 address. */
  lemma MappedRuleLengths(base: IP, bits: int)
    requires Is4In6(base)
    ensures ToPrefixUnmapped(base, bits)
         == if 96 <= bits <= 128 then Some(Prefix(V4(base.n % TWO32), bits - 96)) else None
  {
  }

  /** With at most 32 free bits, only mapped addresses share the leading bits of one. */
  lemma OnlyMappedShareLeading(base: IP, ip: IP, free: nat)
    requires Is4In6(base) && ip.V6? && free <= 32 && SameLeading(base.n, ip.n, free)
    ensures Is4In6(ip)
  {
    var rest := FreeBits(free);
    DivTwice(base.n, Pow2(free), rest);
    DivTwice(ip.n, Pow2(free), rest);
  }

  /** A rule accepted for an IPv6 base answers an IPv6 query as the plain 128-bit
      prefix would - except that a mapped query never matches a rule whose base is
      not mapped, however wide the rule. */
  lemma RuleAnswersExactly(base: IP, bits: int, ip: IP)
    requires base.V6? && ip.V6? && ToPrefixUnmapped(base, bits).Some?
    ensures 0 <= bits <= 128
    ensures Contains(ToPrefixUnmapped(base, bits).value, Unmap(ip))
       <==> Contains(Prefix(base, bits), ip) && (Is4In6(ip) ==> Is4In6(base))
  {
    if Is4In6(base) {
      if Is4In6(ip) {
        MappedParts(base);
        MappedParts(ip);
        SameLeadingMapped(base.n % TWO32, ip.n % TWO32, 128 - bits);
      } else if SameLeading(base.n, ip.n, 128 - bits) {
        OnlyMappedShareLeading(base, ip, 128 - bits);
      }
    }
  }

  function Bit(n: nat, i: nat): (b: nat)
  {
    n / Pow2(i) % 2
  }

  lemma NextBit(n: nat, i: nat)
    ensures n / Pow2(i) == 2 * (n / Pow2(i + 1)) + Bit(n, i)
  {
    DivTwice(n, Pow2(i), 2);
  }

  /** Equal quotients are equal bits. */
  lemma {:induction false} SameLeadingIsBitwise(a: nat, b: nat, free: nat, len: nat)
    requires free <= len && a < Pow2(len) && b < Pow2(len)
    ensures SameLeading(a, b, free) <==> forall i :: free <= i < len ==> Bit(a, i) == Bit(b, i)
    decreases len - free
  {
    if free == len {
      DivModUnique(a, Pow2(len), 0, a);
      DivModUnique(b, Pow2(len), 0, b);
    } else {
      SameLeadingIsBitwise(a, b, free + 1, len);
      NextBit(a, free);
      NextBit(b, free);
    }
  }

  /** Of one family, with the first `bits` bits in common. */
  ghost predicate SharesBits(p: Prefix, ip: IP)
  {
    && p.ip.V4? == ip.V4? && p.bits <= (if ip.V4? then 32 else 128)
    && forall i :: (if ip.V4? then 32 else 128) - p.bits <= i < (if ip.V4? then 32 else 128) ==>
                     Bit(p.ip.n, i) == Bit(ip.n, i)
  }

  lemma ContainsIsBitwise(p: Prefix, ip: IP)
    requires p.bits <= BitLen(p.ip)
    ensures Contains(p, ip) <==> SharesBits(p, ip)
  {
    if p.ip.V4? == ip.V4? {
      Pow2Exceeds();
      Pow2Of32();
      SameLeadingIsBitwise(p.ip.n, ip.n, BitLen(ip) - p.bits, BitLen(ip));
    }
  }

  /** A query matches exactly if it shares the leading bits of some rule, a mapped one
      those of its last 32. */
  lemma MatchesExactly(rules: seq<Prefix>, ip: IP)
    ensures var query := if ip.V6? && ip.n / TWO32 == 0xFFFF then V4(ip.n % TWO32) else ip;
            MatchIP(rules, ip) <==> exists i :: 0 <= i < |rules| && SharesBits(rules[i], query)
  {
    forall i | 0 <= i < |rules| && rules[i].bits <= BitLen(rules[i].ip)
      ensures Contains(rules[i], Unmap(ip)) <==> SharesBits(rules[i], Unmap(ip))
    {
      ContainsIsBitwise(rules[i], Unmap(ip));
    }
  }

  /** The exception is real: the rule ::/0 does not match a mapped query. */
  lemma WidestRuleMissesMapped(v: nat)
    requires v < TWO32
    ensures Contains(Prefix(V6(0), 0), Mapped(v))
    ensures !MatchIP([ToPrefixUnmapped(V6(0), 0).value], Mapped(v))
  {
    var rules := [ToPrefixUnmapped(V6(0), 0).value];
    assert rules[0] == Prefix(V6(0), 0);
    assert Unmap(Mapped(v)).V4?;
    Pow2Exceeds();
    DivModUnique(MAPPED + v, Pow2(128), 0, MAPPED + v);
    DivModUnique(0, Pow2(128), 0, 0);
  }

  lemma Pow2Exceeds()
    ensures Pow2(128) >= TWO128
  {
    Pow2Of32();
    Pow2Splits(32, 32);
    Pow2Splits(64, 64);
    assert Pow2(64) == TWO32 * TWO32;
  }

  /** Mapped and plain forms of a query always get the same answer. */
  lemma FormDoesNotMatter(rules: seq<Prefix>, v: nat)
    requires v < TWO32
    ensures MatchIP(rules, Mapped(v)) <==> MatchIP(rules, V4(v))
  {
    MappedParts(Mapped(v));
    assert (MAPPED + v) % TWO32 == v;
  }
}
