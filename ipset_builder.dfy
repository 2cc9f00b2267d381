/**
 * The mutable builder of `netipx` as `getCidrsDifference` uses it: prefixes
 * are added and removed one at a time, then the set is frozen and listed.
 */
module IpSetBuilders {
  import opened Prefixes
  import opened IpSets

  /** The form the builder keeps its blocks in: canonical and pairwise disjoint. */
  ghost predicate Normal(ds: seq<Prefix>) {
    AllCanonical(ds) && PairwiseDisjoint(ds)
  }

  /** What `ds` becomes once `p` is added: everything else minus `p`, then `p` masked. */
  function With(ds: seq<Prefix>, p: Prefix): (r: seq<Prefix>)
    requires Normal(ds) && Valid(p)
    ensures Normal(r)
    ensures forall a :: Covers(r, a) <==> Covers(ds, a) || Contains(p, a)
  {
    var m := Masked(p);
    var rest := RemoveAll(ds, m);
    RemoveAllDisjoint(ds, m);
    ConcatDisjoint(rest, [m]);
    CoversConcat(rest, [m]);
    assert forall a :: Covers([m], a) <==> Contains(m, a);
    rest + [m]
  }

  /** What `ds` becomes once `p` is removed. */
  function Without(ds: seq<Prefix>, p: Prefix): (r: seq<Prefix>)
    requires Normal(ds) && Valid(p)
    ensures Normal(r)
    ensures forall a :: Covers(r, a) <==> Covers(ds, a) && !Contains(p, a)
  {
    var m := Masked(p);
    RemoveAllDisjoint(ds, m);
    RemoveAll(ds, m)
  }

  /** A frozen set of addresses, as `IPSetBuilder.IPSet` returns it. */
  datatype IPSet = Frozen(blocks: seq<Prefix>) {
    /**
     * The set as its maximal canonical prefixes, as `IPSet.Prefixes` lists
     * it: the largest blocks inside the set, which together cover it.
     */
    function Prefixes(): (r: seq<Prefix>)
      ensures AllCanonical(r) && PairwiseDisjoint(r)
      ensures forall x :: Canonical(x) ==> (x in r <==> Maximal(x, blocks))
      ensures AllValid(blocks) ==> forall a :: Covers(r, a) <==> Covers(blocks, a)
    {
      assert forall x :: Canonical(x) ==> (x in MaximalPrefixes(blocks) <==> Maximal(x, blocks)) by {
        forall x | Canonical(x) ensures x in MaximalPrefixes(blocks) <==> Maximal(x, blocks) {
          MaximalPrefixesExactly(blocks, x);
        }
      }
      assert AllValid(blocks) ==> forall a :: Covers(MaximalPrefixes(blocks), a) <==> Covers(blocks, a) by {
        if AllValid(blocks) {
          MaximalPrefixesCover(blocks);
        }
      }
      MaximalPrefixes(blocks)
    }
  }

  /**
   * Accumulates additions and removals of prefixes. Its blocks are always
   * canonical and pairwise disjoint.
   */
  class IPSetBuilder {
    var blocks: seq<Prefix>

    ghost predicate Valid()
      reads this
    {
      Normal(blocks)
    }

    /** The zero builder: an empty set. */
    constructor ()
      ensures Valid() && blocks == []
    {
      blocks := [];
    }

    /** Adds every address of `p` (its host bits ignored) to the set. */
    method AddPrefix(p: Prefix)
      requires Valid() && Prefixes.Valid(p)
      modifies this
      ensures blocks == With(old(blocks), p) && Valid()
      ensures forall a :: Covers(blocks, a) <==> old(Covers(blocks, a)) || Contains(p, a)
    {
      var m := Masked(p);
      var kept := RemoveFromEach(m);
      blocks := kept + [m];
    }

    /** Removes every address of `p` (its host bits ignored) from the set. */
    method RemovePrefix(p: Prefix)
      requires Valid() && Prefixes.Valid(p)
      modifies this
      ensures blocks == Without(old(blocks), p) && Valid()
      ensures forall a :: Covers(blocks, a) <==> old(Covers(blocks, a)) && !Contains(p, a)
    {
      var m := Masked(p);
      blocks := RemoveFromEach(m);
    }

    /** The blocks with `m` cut out of each, block by block. */
    method RemoveFromEach(m: Prefix) returns (kept: seq<Prefix>)
      requires Valid() && Canonical(m)
      ensures kept == RemoveAll(blocks, m)
    {
      kept := [];
      var i := 0;
      while i < |blocks|
        invariant 0 <= i <= |blocks|
        invariant kept == RemoveAll(blocks[..i], m)
      {
        assert blocks[..i + 1] == blocks[..i] + [blocks[i]];
        RemoveAllSnoc(blocks[..i], blocks[i], m);
        kept := kept + Subtract(blocks[i], m);
        i := i + 1;
      }
      assert blocks[..i] == blocks;
    }

    /** Freezes the builder into a set. */
    method IPSet() returns (s: IPSet)
      requires Valid()
      ensures s.blocks == blocks && Normal(s.blocks)
    {
      s := Frozen(blocks);
    }
  }
}
