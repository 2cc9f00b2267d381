/**
 * Sets of addresses represented by lists of prefixes: subtracting one prefix
 * from another by halving, removing a prefix from a disjoint list, and
 * enumerating a covered set as its maximal canonical prefixes (what
 * `netipx.IPSet.Prefixes` returns).
 */
module IpSets {
  import opened Bits
  import opened Prefixes

  /** Some prefix of `ps` covers `a`. */
  ghost predicate Covers(ps: seq<Prefix>, a: Addr) {
    exists p :: p in ps && Contains(p, a)
  }

  /** Every address of `q` is covered by `ps`. */
  ghost predicate CoveredBy(q: Prefix, ps: seq<Prefix>) {
    forall a :: Contains(q, a) ==> Covers(ps, a)
  }

  ghost predicate AllValid(ps: seq<Prefix>) {
    forall p :: p in ps ==> Valid(p)
  }

  ghost predicate AllCanonical(ps: seq<Prefix>) {
    forall p :: p in ps ==> Canonical(p)
  }

  /** No two entries share an address. */
  ghost predicate PairwiseDisjoint(ps: seq<Prefix>) {
    forall i, j :: 0 <= i < j < |ps| ==> !Overlaps(ps[i], ps[j])
  }

  /**
   * `x` is a largest block inside the set covered by `ps`: it is covered and
   * its parent is not.
   */
  ghost predicate Maximal(x: Prefix, ps: seq<Prefix>)
    requires Valid(x)
  {
    CoveredBy(x, ps) && (x.len == 0 || !CoveredBy(Parent(x), ps))
  }

  lemma CoversConcat(a: seq<Prefix>, b: seq<Prefix>)
    ensures forall x :: Covers(a + b, x) <==> Covers(a, x) || Covers(b, x)
  {
    forall x ensures Covers(a + b, x) <==> Covers(a, x) || Covers(b, x) {
      if Covers(a + b, x) {
        var p :| p in a + b && Contains(p, x);
      }
    }
  }

  /** Blocks inside two disjoint blocks are disjoint. */
  lemma WithinDisjoint(x: Prefix, y: Prefix, p: Prefix, q: Prefix)
    requires Within(x, p) && Within(y, q) && !Overlaps(p, q)
    ensures !Overlaps(x, y)
  {
  }

  /** Concatenating two disjoint lists whose entries do not overlap across keeps them disjoint. */
  lemma ConcatDisjoint(a: seq<Prefix>, b: seq<Prefix>)
    requires PairwiseDisjoint(a) && PairwiseDisjoint(b)
    requires forall x, y :: x in a && y in b ==> !Overlaps(x, y)
    ensures PairwiseDisjoint(a + b)
  {
    var c := a + b;
    forall i, j | 0 <= i < j < |c| ensures !Overlaps(c[i], c[j]) {
      if j < |a| {
        assert c[i] == a[i] && c[j] == a[j];
      } else if i >= |a| {
        assert c[i] == b[i - |a|] && c[j] == b[j - |a|];
      } else {
        assert c[i] in a && c[j] in b;
      }
    }
  }

  // ---------------------------------------------------------------------------
  // Subtracting one prefix from another

  /**
   * The blocks of `d` that remain after removing `m`: `d` itself when they
   * are disjoint, nothing when `d` lies within `m`, and otherwise what
   * remains of each half of `d`.
   */
  function Subtract(d: Prefix, m: Prefix): (r: seq<Prefix>)
    requires Canonical(d) && Canonical(m)
    ensures AllCanonical(r) && PairwiseDisjoint(r)
    ensures forall x :: x in r ==> Within(x, d) && !Overlaps(x, m)
    ensures forall a :: Covers(r, a) <==> Contains(d, a) && !Contains(m, a)
    decreases Width(d.family) - d.len
  {
    if !Overlaps(d, m) then
      OverlapsMeans(d, m);
      [d]
    else if Within(d, m) then
      WithinMeans(d, m);
      []
    else
      if d.len == Width(d.family) then LeafOverlapIsWithin(d, m); assert false; []
      else
        HalvesAreCanonical(d);
        var lo, hi := Subtract(LowerHalf(d), m), Subtract(UpperHalf(d), m);
        SubtractHalves(d, m, lo, hi);
        lo + hi
  }

  /** What remains of the two halves of `d` together is what remains of `d`. */
  lemma SubtractHalves(d: Prefix, m: Prefix, lo: seq<Prefix>, hi: seq<Prefix>)
    requires Canonical(d) && Canonical(m) && d.len < Width(d.family)
    requires AllCanonical(lo) && PairwiseDisjoint(lo) && AllCanonical(hi) && PairwiseDisjoint(hi)
    requires forall x :: x in lo ==> Within(x, LowerHalf(d)) && !Overlaps(x, m)
    requires forall x :: x in hi ==> Within(x, UpperHalf(d)) && !Overlaps(x, m)
    requires forall a :: Covers(lo, a) <==> Contains(LowerHalf(d), a) && !Contains(m, a)
    requires forall a :: Covers(hi, a) <==> Contains(UpperHalf(d), a) && !Contains(m, a)
    ensures AllCanonical(lo + hi) && PairwiseDisjoint(lo + hi)
    ensures forall x :: x in lo + hi ==> Within(x, d) && !Overlaps(x, m)
    ensures forall a :: Covers(lo + hi, a) <==> Contains(d, a) && !Contains(m, a)
  {
    Halves(d);
    assert forall x, y :: x in lo && y in hi ==> !Overlaps(x, y) by {
      forall x, y | x in lo && y in hi ensures !Overlaps(x, y) {
        WithinDisjoint(x, y, LowerHalf(d), UpperHalf(d));
      }
    }
    ConcatDisjoint(lo, hi);
    CoversConcat(lo, hi);
  }

  lemma SubtractDisjoint(d: Prefix, m: Prefix)
    requires Canonical(d) && Canonical(m) && !Overlaps(d, m)
    ensures Subtract(d, m) == [d]
  {
  }

  lemma SubtractInside(d: Prefix, m: Prefix)
    requires Canonical(d) && Canonical(m) && Within(d, m)
    ensures Subtract(d, m) == []
  {
  }

  lemma SubtractSplits(d: Prefix, m: Prefix)
    requires Canonical(d) && Canonical(m) && Overlaps(d, m) && !Within(d, m)
    ensures d.len < Width(d.family)
    ensures Canonical(LowerHalf(d)) && Canonical(UpperHalf(d))
    ensures Subtract(d, m) == Subtract(LowerHalf(d), m) + Subtract(UpperHalf(d), m)
  {
    if d.len == Width(d.family) {
      LeafOverlapIsWithin(d, m);
    }
    Halves(d);
  }

  /** Removes `m` from every entry of `ds`. */
  function RemoveAll(ds: seq<Prefix>, m: Prefix): (r: seq<Prefix>)
    requires AllCanonical(ds) && Canonical(m)
    ensures AllCanonical(r)
    ensures forall x :: x in r ==> !Overlaps(x, m)
    ensures forall a :: Covers(r, a) <==> Covers(ds, a) && !Contains(m, a)
  {
    if ds == [] then []
    else
      var first, rest := Subtract(ds[0], m), RemoveAll(ds[1..], m);
      CoversConcat(first, rest);
      CoversConcat([ds[0]], ds[1..]);
      assert ds == [ds[0]] + ds[1..];
      first + rest
  }

  /** Every block left by RemoveAll lies inside one of the original entries. */
  lemma {:induction false} RemoveAllWithin(ds: seq<Prefix>, m: Prefix, x: Prefix)
    requires AllCanonical(ds) && Canonical(m) && x in RemoveAll(ds, m)
    ensures exists k :: 0 <= k < |ds| && Within(x, ds[k])
  {
    var first, rest := Subtract(ds[0], m), RemoveAll(ds[1..], m);
    assert RemoveAll(ds, m) == first + rest;
    if x !in first {
      RemoveAllWithin(ds[1..], m, x);
      var k :| 0 <= k < |ds[1..]| && Within(x, ds[1..][k]);
      assert ds[1..][k] == ds[k + 1];
    }
  }

  /** RemoveAll keeps a disjoint list disjoint. */
  lemma {:induction false} RemoveAllDisjoint(ds: seq<Prefix>, m: Prefix)
    requires AllCanonical(ds) && Canonical(m) && PairwiseDisjoint(ds)
    ensures PairwiseDisjoint(RemoveAll(ds, m))
  {
    if ds != [] {
      var first, rest := Subtract(ds[0], m), RemoveAll(ds[1..], m);
      assert RemoveAll(ds, m) == first + rest;
      assert PairwiseDisjoint(ds[1..]) by {
        forall i, j | 0 <= i < j < |ds[1..]| ensures !Overlaps(ds[1..][i], ds[1..][j]) {
          assert ds[1..][i] == ds[i + 1] && ds[1..][j] == ds[j + 1];
        }
      }
      RemoveAllDisjoint(ds[1..], m);
      forall x, y | x in first && y in rest ensures !Overlaps(x, y) {
        RemoveAllWithin(ds[1..], m, y);
        var k :| 0 <= k < |ds[1..]| && Within(y, ds[1..][k]);
        assert ds[1..][k] == ds[k + 1];
        WithinDisjoint(x, y, ds[0], ds[k + 1]);
      }
      ConcatDisjoint(first, rest);
    }
  }

  // ---------------------------------------------------------------------------
  // Enumerating a covered set as maximal canonical prefixes

  /** Every address of `q` is covered by `ds`, decided block by block. */
  function Full(q: Prefix, ds: seq<Prefix>): bool
    requires Canonical(q)
    decreases Width(q.family) - q.len
  {
    if exists d :: d in ds && Within(q, d) then true
    else if q.len < Width(q.family) then
      HalvesAreCanonical(q);
      Full(LowerHalf(q), ds) && Full(UpperHalf(q), ds)
    else false
  }

  /** Some entry of `ds` shares an address with `q`. */
  predicate Touches(q: Prefix, ds: seq<Prefix>) {
    exists d :: d in ds && Overlaps(q, d)
  }

  lemma {:induction false} FullMeans(q: Prefix, ds: seq<Prefix>)
    requires Canonical(q)
    ensures Full(q, ds) <==> CoveredBy(q, ds)
    decreases Width(q.family) - q.len
  {
    if exists d :: d in ds && Within(q, d) {
      var d :| d in ds && Within(q, d);
      WithinMeans(q, d);
    } else if q.len < Width(q.family) {
      Halves(q);
      FullMeans(LowerHalf(q), ds);
      FullMeans(UpperHalf(q), ds);
    } else {
      CanonicalFits(q);
      var a := Addr(q.family, q.addr);
      assert Contains(q, a);
      if CoveredBy(q, ds) {
        var d :| d in ds && Contains(d, a);
        assert Size(q) == 1;
        assert Within(q, d);
        assert false;
      }
    }
  }

  lemma TouchesMeans(q: Prefix, ds: seq<Prefix>)
    ensures Touches(q, ds) <==> exists a :: Contains(q, a) && Covers(ds, a)
  {
    if Touches(q, ds) {
      var d :| d in ds && Overlaps(q, d);
      OverlapsMeans(q, d);
    }
    if exists a :: Contains(q, a) && Covers(ds, a) {
      var a :| Contains(q, a) && Covers(ds, a);
      var d :| d in ds && Contains(d, a);
      OverlapsMeans(q, d);
    }
  }

  /**
   * The maximal canonical blocks within `q` that `ds` covers, found by
   * descending from `q` into halves that are neither full nor empty.
   */
  function Decompose(q: Prefix, ds: seq<Prefix>): seq<Prefix>
    requires Canonical(q)
    decreases Width(q.family) - q.len
  {
    if Full(q, ds) then [q]
    else if !Touches(q, ds) then []
    else if q.len < Width(q.family) then
      HalvesAreCanonical(q);
      Decompose(LowerHalf(q), ds) + Decompose(UpperHalf(q), ds)
    else []
  }

  /**
   * Decompose yields canonical, pairwise disjoint blocks inside `q`, each
   * covered by `ds` and each either `q` itself or with an uncovered parent,
   * and together they cover exactly the covered addresses of `q`.
   */
  lemma DecomposeFacts(q: Prefix, ds: seq<Prefix>)
    requires Canonical(q)
    ensures AllCanonical(Decompose(q, ds)) && PairwiseDisjoint(Decompose(q, ds))
    ensures forall x :: x in Decompose(q, ds) ==> Within(x, q) && CoveredBy(x, ds)
    ensures forall x :: x in Decompose(q, ds) ==> x == q || (x.len > 0 && !CoveredBy(Parent(x), ds))
    ensures forall a :: Covers(Decompose(q, ds), a) <==> Contains(q, a) && Covers(ds, a)
  {
    DecomposeNormal(q, ds);
    DecomposeWithin(q, ds);
    DecomposeParents(q, ds);
    DecomposeCovers(q, ds);
  }

  /** The three ways Decompose can go, with what each means for coverage. */
  lemma DecomposeCases(q: Prefix, ds: seq<Prefix>)
    requires Canonical(q)
    ensures Full(q, ds) <==> CoveredBy(q, ds)
    ensures Full(q, ds) ==> Decompose(q, ds) == [q]
    ensures !Full(q, ds) && !Touches(q, ds) ==> Decompose(q, ds) == []
    ensures !Full(q, ds) && Touches(q, ds) ==>
      q.len < Width(q.family) && Canonical(LowerHalf(q)) && Canonical(UpperHalf(q)) &&
      Decompose(q, ds) == Decompose(LowerHalf(q), ds) + Decompose(UpperHalf(q), ds)
  {
    FullMeans(q, ds);
    if !Full(q, ds) && Touches(q, ds) {
      DecomposeSplits(q, ds);
    }
  }

  /** Every block of Decompose lies within `q` and is covered. */
  lemma {:induction false} DecomposeWithin(q: Prefix, ds: seq<Prefix>)
    requires Canonical(q)
    ensures forall x :: x in Decompose(q, ds) ==> Within(x, q) && CoveredBy(x, ds)
    decreases Width(q.family) - q.len
  {
    DecomposeCases(q, ds);
    if !Full(q, ds) && Touches(q, ds) {
      Halves(q);
      DecomposeWithin(LowerHalf(q), ds);
      DecomposeWithin(UpperHalf(q), ds);
    }
  }

  /** The blocks of Decompose are canonical and pairwise disjoint. */
  lemma {:induction false} DecomposeNormal(q: Prefix, ds: seq<Prefix>)
    requires Canonical(q)
    ensures AllCanonical(Decompose(q, ds)) && PairwiseDisjoint(Decompose(q, ds))
    decreases Width(q.family) - q.len
  {
    DecomposeCases(q, ds);
    if !Full(q, ds) && Touches(q, ds) {
      Halves(q);
      DecomposeNormal(LowerHalf(q), ds);
      DecomposeNormal(UpperHalf(q), ds);
      DecomposeWithin(LowerHalf(q), ds);
      DecomposeWithin(UpperHalf(q), ds);
      var lo, hi := Decompose(LowerHalf(q), ds), Decompose(UpperHalf(q), ds);
      assert forall x, y :: x in lo && y in hi ==> !Overlaps(x, y) by {
        forall x, y | x in lo && y in hi ensures !Overlaps(x, y) {
          WithinDisjoint(x, y, LowerHalf(q), UpperHalf(q));
        }
      }
      ConcatDisjoint(lo, hi);
    }
  }

  /** Every block of Decompose is `q` itself or has an uncovered parent. */
  lemma {:induction false} DecomposeParents(q: Prefix, ds: seq<Prefix>)
    requires Canonical(q)
    ensures forall x :: x in Decompose(q, ds) ==> Canonical(x) && (x == q || (x.len > 0 && !CoveredBy(Parent(x), ds)))
    decreases Width(q.family) - q.len
  {
    DecomposeCases(q, ds);
    DecomposeNormal(q, ds);
    if !Full(q, ds) && Touches(q, ds) {
      Halves(q);
      DecomposeParents(LowerHalf(q), ds);
      DecomposeParents(UpperHalf(q), ds);
    }
  }

  /** Decompose covers exactly the covered addresses of `q`. */
  lemma {:induction false} DecomposeCovers(q: Prefix, ds: seq<Prefix>)
    requires Canonical(q)
    ensures forall a :: Covers(Decompose(q, ds), a) <==> Contains(q, a) && Covers(ds, a)
    decreases Width(q.family) - q.len
  {
    DecomposeCases(q, ds);
    if Full(q, ds) {
      assert forall a :: Covers([q], a) <==> Contains(q, a);
    } else if !Touches(q, ds) {
      TouchesMeans(q, ds);
    } else {
      Halves(q);
      DecomposeCovers(LowerHalf(q), ds);
      DecomposeCovers(UpperHalf(q), ds);
      CoversConcat(Decompose(LowerHalf(q), ds), Decompose(UpperHalf(q), ds));
    }
  }

  lemma DecomposeFull(q: Prefix, ds: seq<Prefix>)
    requires Canonical(q) && Full(q, ds)
    ensures Decompose(q, ds) == [q]
  {
  }

  lemma DecomposeSplits(q: Prefix, ds: seq<Prefix>)
    requires Canonical(q) && !Full(q, ds) && Touches(q, ds)
    ensures q.len < Width(q.family)
    ensures Canonical(LowerHalf(q)) && Canonical(UpperHalf(q))
    ensures Decompose(q, ds) == Decompose(LowerHalf(q), ds) + Decompose(UpperHalf(q), ds)
  {
    FullMeans(q, ds);
    TouchesMeans(q, ds);
    Halves(q);
  }

  /** Every maximal canonical block inside `q` is found by Decompose. */
  lemma {:induction false} DecomposeComplete(q: Prefix, ds: seq<Prefix>, x: Prefix)
    requires Canonical(q) && Canonical(x) && Within(x, q) && Maximal(x, ds)
    ensures x in Decompose(q, ds)
    decreases Width(q.family) - q.len
  {
    FullMeans(q, ds);
    if Full(q, ds) {
      if x != q {
        StrictlyWithin(x, q);
        ParentWithin(x, q);
        WithinMeans(Parent(x), q);
        assert false;
      }
      DecomposeFull(q, ds);
    } else {
      CanonicalFits(x);
      assert Contains(x, Addr(x.family, x.addr));
      WithinMeans(x, q);
      TouchesMeans(q, ds);
      assert Touches(q, ds);
      StrictlyWithin(x, q);
      WithinAHalf(x, q);
      DecomposeSplits(q, ds);
      if Within(x, LowerHalf(q)) {
        DecomposeComplete(LowerHalf(q), ds, x);
      } else {
        DecomposeComplete(UpperHalf(q), ds, x);
      }
    }
  }

  /** Decompose looks only at which addresses of `q` are covered, not at how. */
  lemma {:induction false} DecomposeOnlyCoverage(q: Prefix, ds: seq<Prefix>, es: seq<Prefix>)
    requires Canonical(q)
    requires forall a :: Contains(q, a) ==> (Covers(ds, a) <==> Covers(es, a))
    ensures Decompose(q, ds) == Decompose(q, es)
    decreases Width(q.family) - q.len
  {
    FullMeans(q, ds);
    FullMeans(q, es);
    TouchesMeans(q, ds);
    TouchesMeans(q, es);
    if !Full(q, ds) && Touches(q, ds) {
      DecomposeSplits(q, ds);
      DecomposeSplits(q, es);
      Halves(q);
      DecomposeOnlyCoverage(LowerHalf(q), ds, es);
      DecomposeOnlyCoverage(UpperHalf(q), ds, es);
    }
  }

  /** A valid prefix lies inside the whole address space of its family. */
  lemma ValidWithinRoot(d: Prefix)
    requires Valid(d)
    ensures Within(d, Root(d.family))
  {
    CanonicalFits(Masked(d));
  }

  /**
   * The set covered by `ds` as its maximal canonical blocks, IPv4 first:
   * the prefixes `netipx.IPSet.Prefixes` reports.
   */
  function MaximalPrefixes(ds: seq<Prefix>): (r: seq<Prefix>)
    ensures AllCanonical(r) && PairwiseDisjoint(r)
  {
    var r4, r6 := Decompose(Root(V4), ds), Decompose(Root(V6), ds);
    DecomposeFacts(Root(V4), ds);
    DecomposeFacts(Root(V6), ds);
    assert forall x, y :: x in r4 && y in r6 ==> !Overlaps(x, y) by {
      forall x, y | x in r4 && y in r6 ensures !Overlaps(x, y) {
        assert Within(x, Root(V4)) && Within(y, Root(V6));
      }
    }
    ConcatDisjoint(r4, r6);
    r4 + r6
  }

  /** The enumeration covers exactly what the list covers. */
  lemma MaximalPrefixesCover(ds: seq<Prefix>)
    requires AllValid(ds)
    ensures forall a :: Covers(MaximalPrefixes(ds), a) <==> Covers(ds, a)
  {
    RootCovers(V4, ds);
    RootCovers(V6, ds);
    CoversConcat(Decompose(Root(V4), ds), Decompose(Root(V6), ds));
  }

  /** Decomposing a family's whole space yields what `ds` covers of that family. */
  lemma RootCovers(f: Family, ds: seq<Prefix>)
    requires AllValid(ds)
    ensures forall a :: Covers(Decompose(Root(f), ds), a) <==> a.family == f && Covers(ds, a)
  {
    DecomposeCovers(Root(f), ds);
    forall a: Addr | a.family == f && Covers(ds, a) ensures Contains(Root(f), a) {
      CoveredInRoot(ds, a);
    }
  }

  /** Whatever a list of valid prefixes covers lies in the address space of its family. */
  lemma CoveredInRoot(ds: seq<Prefix>, a: Addr)
    requires AllValid(ds) && Covers(ds, a)
    ensures Contains(Root(a.family), a)
  {
    var d :| d in ds && Contains(d, a);
    ValidWithinRoot(d);
  }

  /**
   * MaximalPrefixes lists exactly the maximal canonical blocks of the covered
   * set, so it is the unique such decomposition.
   */
  lemma MaximalPrefixesExactly(ds: seq<Prefix>, x: Prefix)
    requires Canonical(x)
    ensures x in MaximalPrefixes(ds) <==> Maximal(x, ds)
  {
    if Maximal(x, ds) {
      ValidWithinRoot(x);
      DecomposeComplete(Root(x.family), ds, x);
    }
    if x in MaximalPrefixes(ds) {
      DecomposeFacts(Root(V4), ds);
      DecomposeFacts(Root(V6), ds);
      assert x in Decompose(Root(V4), ds) || x in Decompose(Root(V6), ds);
    }
  }

  /**
   * Two lists that cover the same addresses enumerate to the same prefixes,
   * whatever their order or overlaps.
   */
  lemma MaximalPrefixesOnlyCoverage(ds: seq<Prefix>, es: seq<Prefix>)
    requires forall a :: Covers(ds, a) <==> Covers(es, a)
    ensures MaximalPrefixes(ds) == MaximalPrefixes(es)
  {
    DecomposeOnlyCoverage(Root(V4), ds, es);
    DecomposeOnlyCoverage(Root(V6), ds, es);
  }

  /** Nothing covered, nothing listed. */
  lemma DecomposeNothing(q: Prefix, ds: seq<Prefix>)
    requires Canonical(q) && forall a :: Contains(q, a) ==> !Covers(ds, a)
    ensures Decompose(q, ds) == []
  {
    var r := Decompose(q, ds);
    if r != [] {
      DecomposeFacts(q, ds);
      var x := r[0];
      CanonicalFits(x);
      assert Contains(x, Addr(x.family, x.addr));
      assert false;
    }
  }

  /** Inside `q`, a second list that covers nothing there changes nothing. */
  lemma DecomposeIgnores(q: Prefix, ds: seq<Prefix>, other: seq<Prefix>)
    requires Canonical(q) && forall a :: Contains(q, a) ==> !Covers(other, a)
    ensures Decompose(q, ds + other) == Decompose(q, ds)
    ensures Decompose(q, other + ds) == Decompose(q, ds)
  {
    CoversConcat(ds, other);
    CoversConcat(other, ds);
    DecomposeOnlyCoverage(q, ds + other, ds);
    DecomposeOnlyCoverage(q, other + ds, ds);
  }

  /**
   * A set made of an IPv4 part and an IPv6 part lists as the IPv4 part's
   * prefixes followed by the IPv6 part's.
   */
  lemma MaximalPrefixesByFamily(ds4: seq<Prefix>, ds6: seq<Prefix>)
    requires forall a :: Covers(ds4, a) ==> a.family == V4
    requires forall a :: Covers(ds6, a) ==> a.family == V6
    ensures MaximalPrefixes(ds4 + ds6) == MaximalPrefixes(ds4) + MaximalPrefixes(ds6)
  {
    RootIgnores(V4, ds4, ds6);
    RootIgnores(V6, ds6, ds4);
    var m4, m6 := Decompose(Root(V4), ds4), Decompose(Root(V6), ds6);
    MaximalPrefixesParts(ds4 + ds6);
    MaximalPrefixesParts(ds4);
    MaximalPrefixesParts(ds6);
    assert m4 + [] == m4 && [] + m6 == m6;
  }

  lemma MaximalPrefixesParts(ds: seq<Prefix>)
    ensures MaximalPrefixes(ds) == Decompose(Root(V4), ds) + Decompose(Root(V6), ds)
  {
  }

  /** Within one family's address space, a list of another family's addresses is ignored. */
  lemma RootIgnores(f: Family, ds: seq<Prefix>, other: seq<Prefix>)
    requires forall a :: Covers(other, a) ==> a.family != f
    ensures Decompose(Root(f), ds + other) == Decompose(Root(f), ds)
    ensures Decompose(Root(f), other + ds) == Decompose(Root(f), ds)
    ensures Decompose(Root(f), other) == []
  {
    var r := Root(f);
    assert forall a :: Contains(r, a) ==> !Covers(other, a);
    DecomposeIgnores(r, ds, other);
    DecomposeNothing(r, other);
  }

  /** The empty set lists no prefix. */
  lemma MaximalPrefixesOfNothing(ds: seq<Prefix>)
    requires forall a :: !Covers(ds, a)
    ensures MaximalPrefixes(ds) == []
  {
    DecomposeNothing(Root(V4), ds);
    DecomposeNothing(Root(V6), ds);
  }

  /** Removing from a list extended by one entry removes from that entry last. */
  lemma {:induction false} RemoveAllSnoc(ds: seq<Prefix>, d: Prefix, m: Prefix)
    requires AllCanonical(ds) && Canonical(d) && Canonical(m)
    ensures RemoveAll(ds + [d], m) == RemoveAll(ds, m) + Subtract(d, m)
  {
    if ds == [] {
      assert [d][1..] == [];
    } else {
      assert (ds + [d])[1..] == ds[1..] + [d];
      RemoveAllSnoc(ds[1..], d, m);
    }
  }
}
