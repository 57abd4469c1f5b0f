/** CIDR blocks as the userspace loader computes them. */
module Cidr {
  import opened Prelude
  import opened Bits

  /** Inclusive range of addresses, most significant octet first. */
  datatype Ipv4Range = Ipv4Range(start: u32, end: u32) {
    predicate Contains(x: u32) { start <= x && x <= end }

    ghost predicate Within(outer: Ipv4Range) { forall x: u32 :: Contains(x) ==> outer.Contains(x) }

    ghost predicate Disjoint(other: Ipv4Range) { forall x: u32 :: Contains(x) ==> !other.Contains(x) }
  }

  function CidrToRange(ip: u32, prefix: nat): Ipv4Range
    requires prefix <= 32
  {
    var mask := if prefix == 0 then 0 else Shl32(0xFFFF_FFFF, 32 - prefix);
    AndOrBounds(ip, mask);
    Ipv4Range(And(ip, mask), Or(ip, Not32(mask)))
  }

  /** Number of addresses in a block with the given prefix length. */
  function BlockSize(prefix: nat): (r: nat)
    requires prefix <= 32
    ensures r >= 1
  {
    Pow2(32 - prefix)
  }

  /** The first `prefix` bits of an address, as a number. */
  function Top(x: u32, prefix: nat): nat
    requires prefix <= 32
  {
    Quot(x, BlockSize(prefix))
  }

  /** Bit `i` of an address, counting from the most significant one. */
  function Bit(x: u32, i: nat): nat
    requires i < 32
  {
    Quot(x, Pow2(31 - i)) % 2
  }

  lemma {:induction false} AndOrBelow(x: nat, y: nat, n: nat)
    requires x < Pow2(n) && y < Pow2(n)
    ensures And(x, y) < Pow2(n) && Or(x, y) < Pow2(n)
  {
    if n > 0 {
      AndOrBelow(x / 2, y / 2, n - 1);
      AndStep(x / 2, x % 2, y / 2, y % 2);
      OrStep(x / 2, x % 2, y / 2, y % 2);
    }
  }

  lemma AndOrBounds(x: u32, y: u32)
    ensures And(x, y) < 0x1_0000_0000
    ensures Or(x, Not32(y)) < 0x1_0000_0000
  {
    Pow2At32();
    AndOrBelow(x, y, 32);
    AndOrBelow(x, Not32(y), 32);
  }

  /** The shifted mask is `2^32 - 2^(32 - prefix)`: `prefix` ones, then zeros. */
  lemma MaskValue(prefix: nat)
    requires 0 < prefix <= 32
    ensures Shl32(0xFFFF_FFFF, 32 - prefix) == 0x1_0000_0000 - BlockSize(prefix)
  {
    hide Pow2;
    Pow2At32();
    Pow2Strict(32 - prefix, 32);
    OnesTimes(Pow2(32 - prefix));
  }

  lemma OnesTimes(b: nat)
    requires 0 < b < 0x1_0000_0000
    ensures 0xFFFF_FFFF * b % 0x1_0000_0000 == 0x1_0000_0000 - b
  {
    assert 0xFFFF_FFFF * b == (b - 1) * 0x1_0000_0000 + (0x1_0000_0000 - b);
  }

  lemma StartOfBlock(q: nat, size: nat)
    requires size > 0
    ensures q * size % size == 0 && Quot(q * size, size) == q
  {
    DivModUnique(q, 0, size);
    QuotUnique(q * size, size, q);
  }

  /** The two ends, from the bit operations. */
  lemma RangeEnds(ip: u32, prefix: nat)
    requires prefix <= 32
    ensures var s, size := Top(ip, prefix) * BlockSize(prefix), BlockSize(prefix);
            CidrToRange(ip, prefix).start == s && CidrToRange(ip, prefix).end == s + (size - 1)
  {
    hide And, Or, Shl32, Quot, Pow2;
    Pow2At32();
    MaskedParts(ip, 32 - prefix, 32);
    if prefix > 0 { MaskValue(prefix); }
  }

  /** `CidrToRange` is the aligned block of `2^(32 - prefix)` addresses around `ip`. */
  lemma CidrBlock(ip: u32, prefix: nat)
    requires prefix <= 32
    ensures var r, size := CidrToRange(ip, prefix), BlockSize(prefix);
            && r.start == Top(ip, prefix) * size
            && r.end - r.start + 1 == size
            && r.start % size == 0
            && r.Contains(ip)
            && Top(r.start, prefix) == Top(ip, prefix)
  {
    hide CidrToRange, Quot, Pow2;
    RangeEnds(ip, prefix);
    StartOfBlock(Top(ip, prefix), BlockSize(prefix));
  }

  /** An address is in the block exactly when its first `prefix` bits agree. */
  lemma InRangeIffTop(ip: u32, prefix: nat, x: u32)
    requires prefix <= 32
    ensures CidrToRange(ip, prefix).Contains(x) <==> Top(x, prefix) == Top(ip, prefix)
  {
    CidrBlock(ip, prefix);
    QuotBlock(x, BlockSize(prefix), Top(ip, prefix));
  }

  /** Dropping one more bit halves the leading part. */
  lemma TopStep(x: u32, prefix: nat)
    requires prefix < 32
    ensures Top(x, prefix) == Top(x, prefix + 1) / 2
  {
    QuotHalf(x, BlockSize(prefix + 1));
  }

  lemma {:induction false} TopCoarser(x: u32, y: u32, p: nat, q: nat)
    requires p <= q <= 32 && Top(x, q) == Top(y, q)
    ensures Top(x, p) == Top(y, p)
    decreases q - p
  {
    if p < q {
      TopStep(x, q - 1);
      TopStep(y, q - 1);
      TopCoarser(x, y, p, q - 1);
    }
  }

  /** Agreement of the leading parts is agreement of each of the first `prefix` bits. */
  lemma {:induction false} TopIsBits(x: u32, y: u32, prefix: nat)
    requires prefix <= 32
    ensures Top(x, prefix) == Top(y, prefix) <==> forall i: nat :: i < prefix ==> Bit(x, i) == Bit(y, i)
  {
    if prefix == 0 {
      Pow2At32();
    } else {
      TopIsBits(x, y, prefix - 1);
      TopStep(x, prefix - 1);
      TopStep(y, prefix - 1);
      assert Bit(x, prefix - 1) == Top(x, prefix) % 2 && Bit(y, prefix - 1) == Top(y, prefix) % 2;
    }
  }

  /** An address is in the block exactly when its first `prefix` bits match the block's start. */
  lemma InRangeIffBits(ip: u32, prefix: nat, x: u32)
    requires prefix <= 32
    ensures var r := CidrToRange(ip, prefix);
            r.Contains(x) <==> forall i: nat :: i < prefix ==> Bit(x, i) == Bit(r.start, i)
  {
    CidrBlock(ip, prefix);
    InRangeIffTop(ip, prefix, x);
    TopIsBits(x, CidrToRange(ip, prefix).start, prefix);
  }

  /** Two blocks of one prefix length that share an address are the same block. */
  lemma CommonAddress(ip1: u32, ip2: u32, prefix: nat, x: u32)
    requires prefix <= 32
    requires CidrToRange(ip1, prefix).Contains(x) && CidrToRange(ip2, prefix).Contains(x)
    ensures CidrToRange(ip1, prefix) == CidrToRange(ip2, prefix)
  {
    InRangeIffTop(ip1, prefix, x);
    InRangeIffTop(ip2, prefix, x);
    CidrBlock(ip1, prefix);
    CidrBlock(ip2, prefix);
  }

  /** Any two blocks are nested, the longer prefix inside the shorter, or disjoint. */
  lemma NestedOrDisjoint(ip1: u32, p1: nat, ip2: u32, p2: nat)
    requires p1 <= p2 <= 32
    ensures var outer, inner := CidrToRange(ip1, p1), CidrToRange(ip2, p2);
            if Top(ip1, p1) == Top(ip2, p1) then inner.Within(outer) else inner.Disjoint(outer)
  {
    forall x: u32 | CidrToRange(ip2, p2).Contains(x)
      ensures Top(x, p1) == Top(ip2, p1)
      ensures CidrToRange(ip1, p1).Contains(x) <==> Top(x, p1) == Top(ip1, p1)
    {
      InRangeIffTop(ip2, p2, x);
      TopCoarser(x, ip2, p1, p2);
      InRangeIffTop(ip1, p1, x);
    }
  }

  /** Equal blocks come from equal prefix lengths. */
  lemma RangeFixesPrefix(ip1: u32, p1: nat, ip2: u32, p2: nat)
    requires p1 <= 32 && p2 <= 32 && CidrToRange(ip1, p1) == CidrToRange(ip2, p2)
    ensures p1 == p2
  {
    hide CidrToRange, Quot, Pow2;
    CidrBlock(ip1, p1);
    CidrBlock(ip2, p2);
    if p1 < p2 {
      Pow2Strict(32 - p2, 32 - p1);
    } else if p2 < p1 {
      Pow2Strict(32 - p1, 32 - p2);
    }
  }
}
