/**
 * IP prefixes as numbers: an address family, an address and a prefix length.
 * A prefix of length `len` in a family of width `w` covers the 2^(w-len)
 * addresses that start at the address with its host bits cleared.
 */
module Prefixes {
  import opened Bits

  datatype Family = V4 | V6

  /** Address width in bits: 32 for IPv4, 128 for IPv6. */
  function Width(f: Family): nat {
    if f == V4 then 32 else 128
  }

  /** One address of one family. */
  datatype Addr = Addr(family: Family, bits: nat)

  /** A prefix as it comes out of parsing: `addr` may still carry host bits. */
  datatype Prefix = Prefix(family: Family, addr: nat, len: nat)

  /** The address fits the family's width and the length does not exceed it. */
  predicate Valid(p: Prefix) {
    p.len <= Width(p.family) && p.addr < Pow2(Width(p.family))
  }

  /** Number of addresses the prefix covers. */
  function Size(p: Prefix): (s: nat)
    ensures s >= 1
  {
    if p.len <= Width(p.family) then Pow2(Width(p.family) - p.len) else 1
  }

  /** The address with its host bits cleared. */
  function Base(p: Prefix): nat {
    ModAtMost(p.addr, Size(p));
    p.addr - p.addr % Size(p)
  }

  /** Host bits are zero: the form in which a set of prefixes is enumerated. */
  predicate Canonical(p: Prefix) {
    Valid(p) && p.addr % Size(p) == 0
  }

  /** Address `a` lies in the block of `p`. */
  predicate Contains(p: Prefix, a: Addr) {
    a.family == p.family && Base(p) <= a.bits < Base(p) + Size(p)
  }

  /** The block of `p` lies inside the block of `q`. */
  predicate Within(p: Prefix, q: Prefix) {
    p.family == q.family && Base(q) <= Base(p) && Base(p) + Size(p) <= Base(q) + Size(q)
  }

  /** The blocks of `p` and `q` share an address. */
  predicate Overlaps(p: Prefix, q: Prefix) {
    p.family == q.family && Base(p) < Base(q) + Size(q) && Base(q) < Base(p) + Size(p)
  }

  /** The prefix with host bits cleared: it covers exactly what `p` covers. */
  function Masked(p: Prefix): (m: Prefix)
    requires Valid(p)
    ensures Canonical(m) && m.family == p.family && m.len == p.len
    ensures Base(m) == Base(p) && Size(m) == Size(p)
    ensures forall a :: Contains(m, a) <==> Contains(p, a)
  {
    var s := Size(p);
    var b := Base(p);
    assert b == (p.addr / s) * s;
    MulMod(p.addr / s, s);
    Prefix(p.family, b, p.len)
  }

  /** The whole address space of a family: the prefix of length zero. */
  function Root(f: Family): (r: Prefix)
    ensures Canonical(r) && r.len == 0 && Size(r) == Pow2(Width(f))
  {
    Prefix(f, 0, 0)
  }

  /** The length-one-shorter prefix whose block contains that of `p`. */
  function Parent(p: Prefix): (q: Prefix)
    requires Valid(p) && p.len > 0
    ensures Canonical(q) && q.len == p.len - 1
  {
    Masked(Prefix(p.family, p.addr, p.len - 1))
  }

  // ---------------------------------------------------------------------------
  // Arithmetic facts about canonical prefixes

  /** A longer prefix's block size divides a shorter one's. */
  lemma SizeDivides(a: Prefix, b: Prefix)
    requires Valid(a) && Valid(b) && a.family == b.family && a.len >= b.len
    ensures Size(b) == Pow2(a.len - b.len) * Size(a)
    ensures Size(a) <= Size(b)
  {
    var w := Width(a.family);
    Pow2Add(a.len - b.len, w - a.len);
    assert w - b.len == (a.len - b.len) + (w - a.len);
    MulAtLeast(Pow2(a.len - b.len), Size(a));
  }

  /** A strictly longer prefix covers strictly fewer addresses. */
  lemma LongerIsSmaller(p: Prefix, q: Prefix)
    requires Valid(p) && Valid(q) && p.family == q.family && p.len > q.len
    ensures Size(p) < Size(q)
  {
    Pow2Monotonic(Width(p.family) - p.len, Width(p.family) - q.len);
  }

  /** Every multiple of a block size is a multiple of any smaller block size. */
  lemma MultipleOfSmaller(x: nat, a: Prefix, b: Prefix)
    requires Valid(a) && Valid(b) && a.family == b.family && a.len >= b.len
    requires x % Size(b) == 0
    ensures x % Size(a) == 0
  {
    SizeDivides(a, b);
    ModOfMultiple(x, Pow2(a.len - b.len), Size(a));
  }

  /** The end of a canonical block is again a multiple of its size. */
  lemma EndIsMultiple(p: Prefix)
    requires Canonical(p)
    ensures (p.addr + Size(p)) % Size(p) == 0
  {
    var k := p.addr / Size(p);
    assert p.addr == k * Size(p);
    assert p.addr + Size(p) == (k + 1) * Size(p);
    MulMod(k + 1, Size(p));
  }

  /** A canonical block ends inside the address space. */
  lemma CanonicalFits(p: Prefix)
    requires Canonical(p)
    ensures Base(p) == p.addr
    ensures p.addr + Size(p) <= Pow2(Width(p.family))
  {
    var r := Root(p.family);
    MultipleOfSmaller(Pow2(Width(p.family)), p, r) by {
      MulMod(1, Size(r));
    }
    BlockFits(p.addr, Size(p), Pow2(Width(p.family)));
  }

  /**
   * Canonical blocks are nested or disjoint: one that overlaps a block at
   * most as long lies inside it.
   */
  lemma Laminar(a: Prefix, b: Prefix)
    requires Canonical(a) && Canonical(b) && a.len >= b.len && Overlaps(a, b)
    ensures Within(a, b)
  {
    MultipleOfSmaller(b.addr, a, b);
    if a.addr < b.addr {
      MultiplesApart(a.addr, b.addr, Size(a));
    }
    EndIsMultiple(b);
    MultipleOfSmaller(b.addr + Size(b), a, b);
    if b.addr + Size(b) < a.addr + Size(a) {
      MultiplesApart(a.addr, b.addr + Size(b), Size(a));
    }
  }

  /** Two canonical prefixes, one within the other, are equal or the inner is longer. */
  lemma StrictlyWithin(p: Prefix, q: Prefix)
    requires Canonical(p) && Canonical(q) && Within(p, q) && p != q
    ensures p.len > q.len
  {
    if p.len < q.len {
      Pow2Monotonic(Width(p.family) - q.len, Width(p.family) - p.len);
    } else if p.len == q.len {
      CanonicalFits(p);
      CanonicalFits(q);
    }
  }

  // ---------------------------------------------------------------------------
  // Halving

  /** Half the block size of `q`. */
  function HalfSize(q: Prefix): (h: nat)
    requires Valid(q) && q.len < Width(q.family)
    ensures Size(q) == 2 * h
  {
    Pow2(Width(q.family) - q.len - 1)
  }

  /** The lower half of `q`: one bit longer, same start. */
  function LowerHalf(q: Prefix): Prefix
    requires Valid(q) && q.len < Width(q.family)
  {
    Prefix(q.family, q.addr, q.len + 1)
  }

  /** The upper half of `q`: one bit longer, starting at the midpoint. */
  function UpperHalf(q: Prefix): Prefix
    requires Valid(q) && q.len < Width(q.family)
  {
    Prefix(q.family, q.addr + HalfSize(q), q.len + 1)
  }

  /** Both halves of a canonical prefix are canonical blocks of half its size. */
  lemma HalvesCanonical(q: Prefix)
    requires Canonical(q) && q.len < Width(q.family)
    ensures Canonical(LowerHalf(q)) && Canonical(UpperHalf(q))
    ensures Size(LowerHalf(q)) == HalfSize(q) && Size(UpperHalf(q)) == HalfSize(q)
    ensures Base(q) == q.addr && Base(LowerHalf(q)) == q.addr && Base(UpperHalf(q)) == q.addr + HalfSize(q)
  {
    var h := HalfSize(q);
    assert Size(LowerHalf(q)) == h && Size(UpperHalf(q)) == h;
    CanonicalFits(q);
    HalfMultiples(q.addr, h);
  }

  /** Both halves of a canonical prefix are canonical. */
  lemma HalvesAreCanonical(q: Prefix)
    requires Canonical(q) && q.len < Width(q.family)
    ensures Canonical(LowerHalf(q)) && Canonical(UpperHalf(q))
  {
    HalvesCanonical(q);
  }

  /** Both halves of a canonical prefix have it as their parent. */
  lemma HalvesParent(q: Prefix)
    requires Canonical(q) && q.len < Width(q.family)
    ensures Valid(LowerHalf(q)) && Valid(UpperHalf(q))
    ensures Parent(LowerHalf(q)) == q && Parent(UpperHalf(q)) == q
  {
    HalvesCanonical(q);
    var h := HalfSize(q);
    HalfMultiples(q.addr, h);
    assert Size(Prefix(q.family, q.addr + h, q.len)) == Size(q) == 2 * h;
    assert Base(Prefix(q.family, q.addr + h, q.len)) == q.addr;
  }

  /**
   * Splitting a canonical prefix: both halves are canonical, lie within it,
   * are disjoint, have it as parent, and together cover exactly its block.
   */
  lemma Halves(q: Prefix)
    requires Canonical(q) && q.len < Width(q.family)
    ensures Canonical(LowerHalf(q)) && Canonical(UpperHalf(q))
    ensures Size(LowerHalf(q)) == HalfSize(q) && Size(UpperHalf(q)) == HalfSize(q)
    ensures Within(LowerHalf(q), q) && Within(UpperHalf(q), q)
    ensures !Overlaps(LowerHalf(q), UpperHalf(q))
    ensures Parent(LowerHalf(q)) == q && Parent(UpperHalf(q)) == q
    ensures forall a :: Contains(q, a) <==> Contains(LowerHalf(q), a) || Contains(UpperHalf(q), a)
  {
    HalvesCanonical(q);
    HalvesParent(q);
  }

  /**
   * A canonical prefix strictly inside a canonical `q` lies inside one of
   * the halves of `q`.
   */
  lemma WithinAHalf(p: Prefix, q: Prefix)
    requires Canonical(p) && Canonical(q) && Within(p, q) && p.len > q.len
    ensures q.len < Width(q.family)
    ensures Within(p, LowerHalf(q)) || Within(p, UpperHalf(q))
  {
    Halves(q);
    CanonicalFits(p);
    if p.addr < q.addr + HalfSize(q) {
      Laminar(p, LowerHalf(q));
    } else {
      Laminar(p, UpperHalf(q));
    }
  }

  /** The parent of a canonical prefix strictly inside `q` still lies inside `q`. */
  lemma ParentWithin(p: Prefix, q: Prefix)
    requires Canonical(p) && Canonical(q) && Within(p, q) && p.len > q.len
    ensures Within(Parent(p), q)
  {
    var par := Parent(p);
    CanonicalFits(p);
    assert Contains(par, Addr(p.family, p.addr));
    Laminar(par, q);
  }

  // ---------------------------------------------------------------------------
  // What the interval predicates mean for addresses

  /** Within is inclusion of the covered address sets. */
  lemma WithinMeans(p: Prefix, q: Prefix)
    ensures Within(p, q) <==> forall a :: Contains(p, a) ==> Contains(q, a)
  {
    if forall a :: Contains(p, a) ==> Contains(q, a) {
      assert Contains(p, Addr(p.family, Base(p)));
      assert Contains(p, Addr(p.family, Base(p) + Size(p) - 1));
    }
  }

  /** Overlaps means some address is covered by both. */
  lemma OverlapsMeans(p: Prefix, q: Prefix)
    ensures Overlaps(p, q) <==> exists a :: Contains(p, a) && Contains(q, a)
  {
    if Overlaps(p, q) {
      var m := if Base(p) < Base(q) then Base(q) else Base(p);
      assert Contains(p, Addr(p.family, m)) && Contains(q, Addr(p.family, m));
    }
  }

  /** A single-address prefix that overlaps `q` lies within `q`. */
  lemma LeafOverlapIsWithin(p: Prefix, q: Prefix)
    requires Valid(p) && p.len == Width(p.family) && Overlaps(p, q)
    ensures Within(p, q)
  {
    assert Size(p) == 1;
  }
}
