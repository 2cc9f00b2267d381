/**
 * `getCidrsDifference`: for every list of the reference map, the addresses
 * of its prefixes minus the addresses of the excluded map's list under the
 * same key, written out as the set's maximal prefixes in sorted text order.
 */
module NetblockDifference {
  import opened Wrappers
  import opened Prefixes
  import opened IpSets
  import opened IpSetBuilders
  import opened CidrText
  import opened StringOrder
  import opened NetblockFetch

  /** The prefixes the texts denote, or None when one of them does not parse. */
  function ParseAll(cidrs: seq<string>, syntax: PrefixSyntax): (r: Option<seq<Prefix>>)
    ensures r.Some? <==> forall i :: 0 <= i < |cidrs| ==> syntax.parse(cidrs[i]).Some?
    ensures r.Some? ==> |r.value| == |cidrs| && forall i :: 0 <= i < |cidrs| ==> syntax.parse(cidrs[i]) == Some(r.value[i])
    ensures r.Some? && ParsesValid(syntax) ==> AllValid(r.value)
  {
    if cidrs == [] then Some([])
    else
      match (ParseAll(Init(cidrs), syntax), syntax.parse(Last(cidrs)))
      case (Some(ps), Some(p)) => Some(ps + [p])
      case _ => None
  }

  lemma InitLast<T>(s: seq<T>)
    requires |s| > 0
    ensures s == Init(s) + [Last(s)]
  {
  }

  /** Adds each prefix of `ps` in turn, as the first inner loop does. */
  function AddAll(ds: seq<Prefix>, ps: seq<Prefix>): (r: seq<Prefix>)
    requires Normal(ds) && AllValid(ps)
    ensures Normal(r)
    ensures forall a :: Covers(r, a) <==> Covers(ds, a) || Covers(ps, a)
  {
    if ps == [] then ds
    else
      InitLast(ps);
      CoversConcat(Init(ps), [Last(ps)]);
      assert forall a :: Covers([Last(ps)], a) <==> Contains(Last(ps), a);
      With(AddAll(ds, Init(ps)), Last(ps))
  }

  /** Removes each prefix of `ps` in turn, as the second inner loop does. */
  function RemoveEach(ds: seq<Prefix>, ps: seq<Prefix>): (r: seq<Prefix>)
    requires Normal(ds) && AllValid(ps)
    ensures Normal(r)
    ensures forall a :: Covers(r, a) <==> Covers(ds, a) && !Covers(ps, a)
  {
    if ps == [] then ds
    else
      InitLast(ps);
      CoversConcat(Init(ps), [Last(ps)]);
      assert forall a :: Covers([Last(ps)], a) <==> Contains(Last(ps), a);
      Without(RemoveEach(ds, Init(ps)), Last(ps))
  }

  /** The builder's blocks for one key: the reference prefixes added, then the excluded ones removed. */
  function Build(rs: seq<Prefix>, es: seq<Prefix>): (r: seq<Prefix>)
    requires AllValid(rs) && AllValid(es)
    ensures Normal(r)
    ensures forall a :: Covers(r, a) <==> Covers(rs, a) && !Covers(es, a)
  {
    RemoveEach(AddAll([], rs), es)
  }

  /** The text of each prefix, in order. */
  function RenderAll(ps: seq<Prefix>, syntax: PrefixSyntax): (r: seq<string>)
    ensures |r| == |ps| && forall i :: 0 <= i < |ps| ==> r[i] == syntax.write(ps[i])
  {
    if ps == [] then [] else RenderAll(Init(ps), syntax) + [syntax.write(Last(ps))]
  }

  /** One key's result: its difference set listed as sorted prefix texts. */
  function BlockDifference(reference: seq<string>, excluded: seq<string>, syntax: PrefixSyntax): (r: Result<seq<string>, Error>)
    requires ParsesValid(syntax)
    ensures r.Failure? <==> ParseAll(reference, syntax).None? || ParseAll(excluded, syntax).None?
    ensures r.Failure? ==> r.error == InvalidPrefix
  {
    match (ParseAll(reference, syntax), ParseAll(excluded, syntax))
    case (Some(rs), Some(es)) => Success(SortStrings(RenderAll(MaximalPrefixes(Build(rs, es)), syntax)))
    case _ => Failure(InvalidPrefix)
  }

  /** Every text `getCidrsDifference` reads parses: each reference list, and the excluded list under each reference key. */
  predicate ReadsAll(reference: Blocks, excluded: Blocks, syntax: PrefixSyntax) {
    forall k :: k in reference ==> ParseAll(reference[k], syntax).Some? && ParseAll(Get(excluded, k), syntax).Some?
  }

  /** The whole map: one result per reference key, or the parse failure. */
  function CidrsDifference(reference: Blocks, excluded: Blocks, syntax: PrefixSyntax): (r: Result<Blocks, Error>)
    requires ParsesValid(syntax)
    ensures r.Failure? <==> !ReadsAll(reference, excluded, syntax)
    ensures r.Failure? ==> r.error == InvalidPrefix
    ensures r.Success? ==> r.value.Keys == reference.Keys
  {
    if !ReadsAll(reference, excluded, syntax) then
      Failure(InvalidPrefix)
    else
      Success(map k | k in reference ::
        match BlockDifference(reference[k], Get(excluded, k), syntax)
        case Success(v) => v
        case Failure(_) => [])
  }

  /** Each key of the whole map holds that key's result. */
  lemma CidrsDifferenceAt(reference: Blocks, excluded: Blocks, syntax: PrefixSyntax, k: string)
    requires ParsesValid(syntax) && ReadsAll(reference, excluded, syntax) && k in reference
    ensures BlockDifference(reference[k], Get(excluded, k), syntax) == Success(CidrsDifference(reference, excluded, syntax).value[k])
  {
    assert ParseAll(reference[k], syntax).Some? && ParseAll(Get(excluded, k), syntax).Some?;
  }

  /**
   * The loop over the keys of `getCidrsDifference`: the keys are visited in
   * an unspecified order (Go's map order), and the first list that does not
   * parse ends the loop with the error.
   */
  method GetCidrsDifference(reference: Blocks, excluded: Blocks, syntax: PrefixSyntax) returns (r: Result<Blocks, Error>)
    requires ParsesValid(syntax)
    ensures r == CidrsDifference(reference, excluded, syntax)
  {
    var result: Blocks := map[];
    var todo := reference.Keys;
    while todo != {}
      invariant todo <= reference.Keys
      invariant result.Keys == reference.Keys - todo
      invariant forall k :: k in result ==> BlockDifference(reference[k], Get(excluded, k), syntax) == Success(result[k])
      decreases todo
    {
      var blockName :| blockName in todo;
      var block := DifferenceOfBlock(reference[blockName], Get(excluded, blockName), syntax);
      if block.Failure? {
        KeyFails(reference, excluded, syntax, blockName);
        return Failure(InvalidPrefix);
      }
      KeyDone(reference, excluded, syntax, result, todo, blockName, block.value);
      result := result[blockName := block.value];
      todo := todo - {blockName};
    }
    DifferenceOfAll(reference, excluded, syntax, result);
    r := Success(result);
  }

  /** One key whose lists do not all parse makes the whole map fail. */
  lemma KeyFails(reference: Blocks, excluded: Blocks, syntax: PrefixSyntax, k: string)
    requires ParsesValid(syntax) && k in reference
    requires BlockDifference(reference[k], Get(excluded, k), syntax).Failure?
    ensures CidrsDifference(reference, excluded, syntax) == Failure(InvalidPrefix)
  {
  }

  /** Storing one key's successful result keeps every stored result successful. */
  lemma KeyDone(reference: Blocks, excluded: Blocks, syntax: PrefixSyntax, result: Blocks, todo: set<string>, k: string, v: seq<string>)
    requires ParsesValid(syntax) && k in todo && todo <= reference.Keys
    requires result.Keys == reference.Keys - todo
    requires forall j :: j in result ==> BlockDifference(reference[j], Get(excluded, j), syntax) == Success(result[j])
    requires BlockDifference(reference[k], Get(excluded, k), syntax) == Success(v)
    ensures todo - {k} <= reference.Keys
    ensures result[k := v].Keys == reference.Keys - (todo - {k})
    ensures forall j :: j in result[k := v] ==> BlockDifference(reference[j], Get(excluded, j), syntax) == Success(result[k := v][j])
  {
    KeysStep(result, reference.Keys, todo, k, v);
    var next := result[k := v];
    forall j | j in next
      ensures BlockDifference(reference[j], Get(excluded, j), syntax) == Success(next[j])
    {
      if j != k {
        assert next[j] == result[j];
      }
    }
  }

  /** Moving one key from the to-do set into the map keeps the map's keys the done ones. */
  lemma KeysStep<V>(m: map<string, V>, all: set<string>, todo: set<string>, k: string, v: V)
    requires k in todo && todo <= all && m.Keys == all - todo
    ensures todo - {k} <= all && m[k := v].Keys == all - (todo - {k})
  {
  }

  /** Maps with the same keys and the same value under each key are equal. */
  lemma SameMap<K, V>(a: map<K, V>, b: map<K, V>)
    requires a.Keys == b.Keys && forall k :: k in a ==> a[k] == b[k]
    ensures a == b
  {
  }

  /** A map holding each key's successful result is the whole map's result. */
  lemma DifferenceOfAll(reference: Blocks, excluded: Blocks, syntax: PrefixSyntax, result: Blocks)
    requires ParsesValid(syntax)
    requires result.Keys == reference.Keys
    requires forall k :: k in result ==> BlockDifference(reference[k], Get(excluded, k), syntax) == Success(result[k])
    ensures CidrsDifference(reference, excluded, syntax) == Success(result)
  {
    assert ReadsAll(reference, excluded, syntax);
    var r := CidrsDifference(reference, excluded, syntax);
    forall k | k in r.value
      ensures r.value[k] == result[k]
    {
      CidrsDifferenceAt(reference, excluded, syntax, k);
    }
    SameMap(r.value, result);
  }

  /**
   * The body of that loop for one key: a fresh builder gets each reference
   * prefix added and each excluded prefix removed; the set is listed,
   * written out and sorted.
   */
  method DifferenceOfBlock(cidrs: seq<string>, excludedCidrs: seq<string>, syntax: PrefixSyntax) returns (r: Result<seq<string>, Error>)
    requires ParsesValid(syntax)
    ensures r == BlockDifference(cidrs, excludedCidrs, syntax)
  {
    var ipSetBuilder := new IPSetBuilder();
    var ok := AddTexts(ipSetBuilder, cidrs, syntax);
    if !ok {
      return Failure(InvalidPrefix);
    }
    ok := RemoveTexts(ipSetBuilder, excludedCidrs, syntax);
    if !ok {
      return Failure(InvalidPrefix);
    }
    var ipSet := ipSetBuilder.IPSet();
    var ipRangeStrings := WriteAll(ipSet.Prefixes(), syntax);
    ParsedDifference(cidrs, excludedCidrs, syntax);
    r := Success(SortStrings(ipRangeStrings));
  }

  /** The first inner loop: parses each text and adds its prefix, stopping at the first text that does not parse. */
  method AddTexts(builder: IPSetBuilder, cidrs: seq<string>, syntax: PrefixSyntax) returns (ok: bool)
    requires builder.Valid() && ParsesValid(syntax)
    modifies builder
    ensures builder.Valid()
    ensures ok <==> ParseAll(cidrs, syntax).Some?
    ensures ok ==> builder.blocks == AddAll(old(builder.blocks), ParseAll(cidrs, syntax).value)
  {
    ghost var start := builder.blocks;
    var i := 0;
    while i < |cidrs|
      invariant 0 <= i <= |cidrs|
      invariant ParseAll(cidrs[..i], syntax).Some?
      invariant builder.Valid() && builder.blocks == AddAll(start, ParseAll(cidrs[..i], syntax).value)
    {
      var net := syntax.parse(cidrs[i]);
      if net.None? {
        ParseStops(cidrs, i, syntax);
        return false;
      }
      AddStep(start, cidrs, i, syntax);
      builder.AddPrefix(net.value);
      i := i + 1;
    }
    assert cidrs[..i] == cidrs;
    return true;
  }

  /** The second inner loop: parses each text and removes its prefix, stopping at the first text that does not parse. */
  method RemoveTexts(builder: IPSetBuilder, cidrs: seq<string>, syntax: PrefixSyntax) returns (ok: bool)
    requires builder.Valid() && ParsesValid(syntax)
    modifies builder
    ensures builder.Valid()
    ensures ok <==> ParseAll(cidrs, syntax).Some?
    ensures ok ==> builder.blocks == RemoveEach(old(builder.blocks), ParseAll(cidrs, syntax).value)
  {
    ghost var start := builder.blocks;
    var i := 0;
    while i < |cidrs|
      invariant 0 <= i <= |cidrs|
      invariant ParseAll(cidrs[..i], syntax).Some?
      invariant builder.Valid() && builder.blocks == RemoveEach(start, ParseAll(cidrs[..i], syntax).value)
    {
      var net := syntax.parse(cidrs[i]);
      if net.None? {
        ParseStops(cidrs, i, syntax);
        return false;
      }
      RemoveStep(start, cidrs, i, syntax);
      builder.RemovePrefix(net.value);
      i := i + 1;
    }
    assert cidrs[..i] == cidrs;
    return true;
  }

  /** The last inner loop: the text of each listed prefix, in order. */
  method WriteAll(ps: seq<Prefix>, syntax: PrefixSyntax) returns (texts: seq<string>)
    ensures texts == RenderAll(ps, syntax)
  {
    texts := [];
    var i := 0;
    while i < |ps|
      invariant 0 <= i <= |ps|
      invariant texts == RenderAll(ps[..i], syntax)
    {
      assert Init(ps[..i + 1]) == ps[..i] && Last(ps[..i + 1]) == ps[i];
      texts := texts + [syntax.write(ps[i])];
      i := i + 1;
    }
    assert ps[..i] == ps;
  }

  /** A text that does not parse makes the whole list fail. */
  lemma ParseStops(cidrs: seq<string>, i: nat, syntax: PrefixSyntax)
    requires i < |cidrs| && syntax.parse(cidrs[i]).None?
    ensures ParseAll(cidrs, syntax).None?
  {
  }

  /** One more parsed text adds one more prefix to the builder. */
  lemma AddStep(start: seq<Prefix>, cidrs: seq<string>, i: nat, syntax: PrefixSyntax)
    requires Normal(start) && ParsesValid(syntax) && i < |cidrs|
    requires ParseAll(cidrs[..i], syntax).Some? && syntax.parse(cidrs[i]).Some?
    ensures ParseAll(cidrs[..i + 1], syntax).Some?
    ensures AddAll(start, ParseAll(cidrs[..i + 1], syntax).value) ==
      With(AddAll(start, ParseAll(cidrs[..i], syntax).value), syntax.parse(cidrs[i]).value)
  {
    assert cidrs[..i + 1] == cidrs[..i] + [cidrs[i]];
    ParseAllSnoc(cidrs[..i], cidrs[i], syntax);
    AddAllSnoc(start, ParseAll(cidrs[..i], syntax).value, syntax.parse(cidrs[i]).value);
  }

  /** One more parsed text removes one more prefix from the builder. */
  lemma RemoveStep(start: seq<Prefix>, cidrs: seq<string>, i: nat, syntax: PrefixSyntax)
    requires Normal(start) && ParsesValid(syntax) && i < |cidrs|
    requires ParseAll(cidrs[..i], syntax).Some? && syntax.parse(cidrs[i]).Some?
    ensures ParseAll(cidrs[..i + 1], syntax).Some?
    ensures RemoveEach(start, ParseAll(cidrs[..i + 1], syntax).value) ==
      Without(RemoveEach(start, ParseAll(cidrs[..i], syntax).value), syntax.parse(cidrs[i]).value)
  {
    assert cidrs[..i + 1] == cidrs[..i] + [cidrs[i]];
    ParseAllSnoc(cidrs[..i], cidrs[i], syntax);
    RemoveEachSnoc(start, ParseAll(cidrs[..i], syntax).value, syntax.parse(cidrs[i]).value);
  }

  lemma ParseAllSnoc(cidrs: seq<string>, x: string, syntax: PrefixSyntax)
    ensures ParseAll(cidrs + [x], syntax) ==
      if ParseAll(cidrs, syntax).Some? && syntax.parse(x).Some? then Some(ParseAll(cidrs, syntax).value + [syntax.parse(x).value]) else None
  {
    assert Init(cidrs + [x]) == cidrs && Last(cidrs + [x]) == x;
  }

  lemma AddAllSnoc(ds: seq<Prefix>, ps: seq<Prefix>, p: Prefix)
    requires Normal(ds) && AllValid(ps) && Valid(p)
    ensures AllValid(ps + [p]) && AddAll(ds, ps + [p]) == With(AddAll(ds, ps), p)
  {
    assert Init(ps + [p]) == ps && Last(ps + [p]) == p;
  }

  lemma RemoveEachSnoc(ds: seq<Prefix>, ps: seq<Prefix>, p: Prefix)
    requires Normal(ds) && AllValid(ps) && Valid(p)
    ensures AllValid(ps + [p]) && RemoveEach(ds, ps + [p]) == Without(RemoveEach(ds, ps), p)
  {
    assert Init(ps + [p]) == ps && Last(ps + [p]) == p;
  }

  /** An empty reference list leaves nothing, whatever is excluded. */
  lemma BlockDifferenceOfNothing(excluded: seq<string>, syntax: PrefixSyntax)
    requires ParsesValid(syntax) && ParseAll(excluded, syntax).Some?
    ensures BlockDifference([], excluded, syntax) == Success([])
  {
    var b := Build([], ParseAll(excluded, syntax).value);
    assert forall a :: !Covers(b, a);
    MaximalPrefixesOfNothing(b);
  }

  // ---------------------------------------------------------------------------
  // What one key's result means

  /** Some text of the list parses to a prefix containing `a`. */
  ghost predicate CoversText(cidrs: seq<string>, syntax: PrefixSyntax, a: Addr) {
    exists s :: s in cidrs && syntax.parse(s).Some? && Contains(syntax.parse(s).value, a)
  }

  /** The addresses of the reference texts that no excluded text covers. */
  ghost predicate InDifference(reference: seq<string>, excluded: seq<string>, syntax: PrefixSyntax, a: Addr) {
    CoversText(reference, syntax, a) && !CoversText(excluded, syntax, a)
  }

  /** `x` lies in the difference and its parent does not. */
  ghost predicate MaximalInDifference(x: Prefix, reference: seq<string>, excluded: seq<string>, syntax: PrefixSyntax)
    requires Valid(x)
  {
    (forall a :: Contains(x, a) ==> InDifference(reference, excluded, syntax, a)) &&
    (x.len == 0 || exists a :: Contains(Parent(x), a) && !InDifference(reference, excluded, syntax, a))
  }

  /** The parsed prefixes cover what the texts cover. */
  lemma ParseAllCovers(cidrs: seq<string>, syntax: PrefixSyntax)
    requires ParseAll(cidrs, syntax).Some?
    ensures forall a :: Covers(ParseAll(cidrs, syntax).value, a) <==> CoversText(cidrs, syntax, a)
  {
    var ps := ParseAll(cidrs, syntax).value;
    forall a ensures Covers(ps, a) <==> CoversText(cidrs, syntax, a) {
      if Covers(ps, a) {
        var p :| p in ps && Contains(p, a);
        var i :| 0 <= i < |ps| && ps[i] == p;
        assert cidrs[i] in cidrs && syntax.parse(cidrs[i]) == Some(p);
      }
      if CoversText(cidrs, syntax, a) {
        var s :| s in cidrs && syntax.parse(s).Some? && Contains(syntax.parse(s).value, a);
        var i :| 0 <= i < |cidrs| && cidrs[i] == s;
        assert ps[i] in ps;
      }
    }
  }

  /**
   * A permutation of the texts of valid prefixes parses back to a list
   * holding exactly those prefixes.
   */
  lemma RenderedTextsParse(ps: seq<Prefix>, out: seq<string>, syntax: PrefixSyntax)
    requires ParsesValid(syntax) && ReadsBack(syntax) && AllValid(ps) && multiset(out) == multiset(RenderAll(ps, syntax))
    ensures ParseAll(out, syntax).Some?
    ensures forall x :: x in ParseAll(out, syntax).value <==> x in ps
  {
    forall i | 0 <= i < |out|
      ensures syntax.parse(out[i]).Some?
    {
      RenderedTextParses(ps, out, syntax, i);
    }
    var qs := ParseAll(out, syntax).value;
    forall x ensures x in qs <==> x in ps {
      if x in qs {
        var i :| 0 <= i < |qs| && qs[i] == x;
        RenderedTextParses(ps, out, syntax, i);
      }
      if x in ps {
        var j :| 0 <= j < |ps| && ps[j] == x;
        RenderedTextFound(ps, out, syntax, j);
        var i :| 0 <= i < |out| && syntax.parse(out[i]) == Some(x);
        assert qs[i] == x;
      }
    }
  }

  /** Each of the rearranged texts reads as one of the prefixes. */
  lemma RenderedTextParses(ps: seq<Prefix>, out: seq<string>, syntax: PrefixSyntax, i: nat)
    requires ReadsBack(syntax) && AllValid(ps) && multiset(out) == multiset(RenderAll(ps, syntax)) && i < |out|
    ensures syntax.parse(out[i]).Some? && syntax.parse(out[i]).value in ps
  {
    var texts := RenderAll(ps, syntax);
    assert out[i] in multiset(texts);
    var j :| 0 <= j < |texts| && texts[j] == out[i];
    assert ps[j] in ps;
  }

  /** Each prefix is read from one of the rearranged texts. */
  lemma RenderedTextFound(ps: seq<Prefix>, out: seq<string>, syntax: PrefixSyntax, j: nat)
    requires ReadsBack(syntax) && AllValid(ps) && multiset(out) == multiset(RenderAll(ps, syntax)) && j < |ps|
    ensures exists i :: 0 <= i < |out| && syntax.parse(out[i]) == Some(ps[j])
  {
    var texts := RenderAll(ps, syntax);
    assert texts[j] in multiset(out);
    var i :| 0 <= i < |out| && out[i] == texts[j];
    assert ps[j] in ps;
  }

  /** Two different members of a pairwise disjoint list do not overlap. */
  lemma DistinctMembersDisjoint(ps: seq<Prefix>, x: Prefix, y: Prefix)
    requires PairwiseDisjoint(ps) && x in ps && y in ps && x != y
    ensures !Overlaps(x, y)
  {
    var i :| 0 <= i < |ps| && ps[i] == x;
    var j :| 0 <= j < |ps| && ps[j] == y;
    assert i != j;
  }

  /** The builder's blocks for one key cover exactly the difference of the texts. */
  lemma BuildMeans(reference: seq<string>, excluded: seq<string>, syntax: PrefixSyntax)
    requires ParsesValid(syntax) && ParseAll(reference, syntax).Some? && ParseAll(excluded, syntax).Some?
    ensures forall a :: Covers(Build(ParseAll(reference, syntax).value, ParseAll(excluded, syntax).value), a) <==>
      InDifference(reference, excluded, syntax, a)
  {
    ParseAllCovers(reference, syntax);
    ParseAllCovers(excluded, syntax);
  }

  /**
   * A list holding exactly the maximal prefixes of `b` is canonical, pairwise
   * disjoint and covers what `b` covers.
   */
  lemma MaximalListing(b: seq<Prefix>, qs: seq<Prefix>)
    requires AllValid(b) && forall x :: x in qs <==> x in MaximalPrefixes(b)
    ensures forall x :: x in qs ==> Canonical(x)
    ensures forall x, y :: x in qs && y in qs && x != y ==> !Overlaps(x, y)
    ensures forall a :: Covers(qs, a) <==> Covers(b, a)
    ensures forall x :: Canonical(x) ==> (x in qs <==> Maximal(x, b))
  {
    var m := MaximalPrefixes(b);
    MaximalPrefixesCover(b);
    forall x, y | x in qs && y in qs && x != y ensures !Overlaps(x, y) {
      DistinctMembersDisjoint(m, x, y);
    }
    forall a ensures Covers(qs, a) <==> Covers(m, a) {
      if Covers(qs, a) {
        var p :| p in qs && Contains(p, a);
        assert p in m;
      }
      if Covers(m, a) {
        var p :| p in m && Contains(p, a);
        assert p in qs;
      }
    }
    forall x | Canonical(x) ensures x in qs <==> Maximal(x, b) {
      MaximalPrefixesExactly(b, x);
    }
  }

  /** Maximal in blocks that cover the difference is maximal in the difference. */
  lemma MaximalTranslates(b: seq<Prefix>, reference: seq<string>, excluded: seq<string>, syntax: PrefixSyntax, x: Prefix)
    requires Valid(x)
    requires forall a :: Covers(b, a) <==> InDifference(reference, excluded, syntax, a)
    ensures Maximal(x, b) <==> MaximalInDifference(x, reference, excluded, syntax)
  {
  }

  /**
   * One key's result, read back: sorted texts of canonical, pairwise disjoint
   * prefixes that cover exactly the reference addresses minus the excluded
   * ones, and that are exactly the maximal prefixes of that difference.
   */
  lemma BlockDifferenceMeans(reference: seq<string>, excluded: seq<string>, syntax: PrefixSyntax, out: seq<string>)
    requires ParsesValid(syntax) && ReadsBack(syntax) && BlockDifference(reference, excluded, syntax) == Success(out)
    ensures Sorted(out)
    ensures ParseAll(out, syntax).Some?
    ensures forall x :: x in ParseAll(out, syntax).value ==> Canonical(x)
    ensures forall x, y :: x in ParseAll(out, syntax).value && y in ParseAll(out, syntax).value && x != y ==> !Overlaps(x, y)
    ensures forall a :: Covers(ParseAll(out, syntax).value, a) <==> InDifference(reference, excluded, syntax, a)
    ensures forall x :: Canonical(x) ==> (x in ParseAll(out, syntax).value <==> MaximalInDifference(x, reference, excluded, syntax))
  {
    var b := Build(ParseAll(reference, syntax).value, ParseAll(excluded, syntax).value);
    var m := MaximalPrefixes(b);
    assert out == SortStrings(RenderAll(m, syntax));
    SortStringsIsSorted(RenderAll(m, syntax));
    RenderedTextsParse(m, out, syntax);
    var qs := ParseAll(out, syntax).value;
    BuildMeans(reference, excluded, syntax);
    MaximalListing(b, qs);
    forall x | Canonical(x) ensures x in qs <==> MaximalInDifference(x, reference, excluded, syntax) {
      MaximalTranslates(b, reference, excluded, syntax, x);
    }
  }

  // ---------------------------------------------------------------------------
  // The combined key

  /** Every text parses, to a prefix of family `f`. */
  ghost predicate TextsOfFamily(cidrs: seq<string>, f: Family, syntax: PrefixSyntax) {
    forall s :: s in cidrs ==> syntax.parse(s).Some? && syntax.parse(s).value.family == f
  }

  lemma TextsOfFamilyParse(cidrs: seq<string>, f: Family, syntax: PrefixSyntax)
    requires TextsOfFamily(cidrs, f, syntax)
    ensures ParseAll(cidrs, syntax).Some?
    ensures forall a :: CoversText(cidrs, syntax, a) ==> a.family == f
  {
    forall i | 0 <= i < |cidrs| ensures syntax.parse(cidrs[i]).Some? {
      assert cidrs[i] in cidrs;
    }
  }

  lemma RenderAllConcat(xs: seq<Prefix>, ys: seq<Prefix>, syntax: PrefixSyntax)
    ensures RenderAll(xs + ys, syntax) == RenderAll(xs, syntax) + RenderAll(ys, syntax)
  {
  }

  /** The result of a key whose lists all parse. */
  lemma ParsedDifference(reference: seq<string>, excluded: seq<string>, syntax: PrefixSyntax)
    requires ParsesValid(syntax) && ParseAll(reference, syntax).Some? && ParseAll(excluded, syntax).Some?
    ensures BlockDifference(reference, excluded, syntax) ==
      Success(SortStrings(RenderAll(MaximalPrefixes(Build(ParseAll(reference, syntax).value, ParseAll(excluded, syntax).value)), syntax)))
  {
  }

  /** The blocks built from texts of one family cover only addresses of that family. */
  lemma FamilyBuild(r: seq<string>, e: seq<string>, f: Family, syntax: PrefixSyntax)
    requires ParsesValid(syntax) && TextsOfFamily(r, f, syntax) && TextsOfFamily(e, f, syntax)
    ensures ParseAll(r, syntax).Some? && ParseAll(e, syntax).Some?
    ensures forall a :: Covers(Build(ParseAll(r, syntax).value, ParseAll(e, syntax).value), a) ==> a.family == f
  {
    TextsOfFamilyParse(r, f, syntax);
    TextsOfFamilyParse(e, f, syntax);
    BuildMeans(r, e, syntax);
  }

  /** The difference of the mixed lists is the union of the per-family differences. */
  lemma DifferenceByFamily(rc: seq<string>, r4: seq<string>, r6: seq<string>,
                           ec: seq<string>, e4: seq<string>, e6: seq<string>, syntax: PrefixSyntax)
    requires forall s :: s in rc <==> s in r4 || s in r6
    requires forall s :: s in ec <==> s in e4 || s in e6
    requires TextsOfFamily(r4, V4, syntax) && TextsOfFamily(e4, V4, syntax)
    requires TextsOfFamily(r6, V6, syntax) && TextsOfFamily(e6, V6, syntax)
    ensures forall a :: InDifference(rc, ec, syntax, a) <==> InDifference(r4, e4, syntax, a) || InDifference(r6, e6, syntax, a)
  {
    TextsOfFamilyParse(r4, V4, syntax);
    TextsOfFamilyParse(e4, V4, syntax);
    TextsOfFamilyParse(r6, V6, syntax);
    TextsOfFamilyParse(e6, V6, syntax);
    forall a ensures CoversText(rc, syntax, a) <==> CoversText(r4, syntax, a) || CoversText(r6, syntax, a) {
      if CoversText(rc, syntax, a) {
        var s :| s in rc && syntax.parse(s).Some? && Contains(syntax.parse(s).value, a);
        assert s in r4 || s in r6;
      }
    }
    forall a ensures CoversText(ec, syntax, a) <==> CoversText(e4, syntax, a) || CoversText(e6, syntax, a) {
      if CoversText(ec, syntax, a) {
        var s :| s in ec && syntax.parse(s).Some? && Contains(syntax.parse(s).value, a);
        assert s in e4 || s in e6;
      }
    }
  }

  /** The mixed lists parse, and their blocks cover what the per-family blocks together cover. */
  lemma CombinedBuild(rc: seq<string>, r4: seq<string>, r6: seq<string>,
                      ec: seq<string>, e4: seq<string>, e6: seq<string>, syntax: PrefixSyntax)
    requires ParsesValid(syntax)
    requires forall s :: s in rc <==> s in r4 || s in r6
    requires forall s :: s in ec <==> s in e4 || s in e6
    requires TextsOfFamily(r4, V4, syntax) && TextsOfFamily(e4, V4, syntax)
    requires TextsOfFamily(r6, V6, syntax) && TextsOfFamily(e6, V6, syntax)
    ensures ParseAll(rc, syntax).Some? && ParseAll(ec, syntax).Some?
    ensures ParseAll(r4, syntax).Some? && ParseAll(e4, syntax).Some? && ParseAll(r6, syntax).Some? && ParseAll(e6, syntax).Some?
    ensures forall a ::
      Covers(Build(ParseAll(rc, syntax).value, ParseAll(ec, syntax).value), a) <==>
      Covers(Build(ParseAll(r4, syntax).value, ParseAll(e4, syntax).value) + Build(ParseAll(r6, syntax).value, ParseAll(e6, syntax).value), a)
  {
    TextsOfFamilyParse(r4, V4, syntax);
    TextsOfFamilyParse(e4, V4, syntax);
    TextsOfFamilyParse(r6, V6, syntax);
    TextsOfFamilyParse(e6, V6, syntax);
    forall i | 0 <= i < |rc| ensures syntax.parse(rc[i]).Some? {
      assert rc[i] in rc;
    }
    forall i | 0 <= i < |ec| ensures syntax.parse(ec[i]).Some? {
      assert ec[i] in ec;
    }
    BuildMeans(rc, ec, syntax);
    BuildMeans(r4, e4, syntax);
    BuildMeans(r6, e6, syntax);
    DifferenceByFamily(rc, r4, r6, ec, e4, e6, syntax);
    CoversConcat(Build(ParseAll(r4, syntax).value, ParseAll(e4, syntax).value), Build(ParseAll(r6, syntax).value, ParseAll(e6, syntax).value));
  }

  /**
   * When a list holds exactly the texts of an IPv4 list and an IPv6 list (and
   * likewise for the excluded lists), its result is the sorted union of the
   * two per-family results.
   */
  lemma BlockDifferenceByFamily(rc: seq<string>, r4: seq<string>, r6: seq<string>,
                                ec: seq<string>, e4: seq<string>, e6: seq<string>, syntax: PrefixSyntax)
    requires ParsesValid(syntax)
    requires forall s :: s in rc <==> s in r4 || s in r6
    requires forall s :: s in ec <==> s in e4 || s in e6
    requires TextsOfFamily(r4, V4, syntax) && TextsOfFamily(e4, V4, syntax)
    requires TextsOfFamily(r6, V6, syntax) && TextsOfFamily(e6, V6, syntax)
    ensures BlockDifference(r4, e4, syntax).Success? && BlockDifference(r6, e6, syntax).Success?
    ensures BlockDifference(rc, ec, syntax) ==
      Success(SortStrings(BlockDifference(r4, e4, syntax).value + BlockDifference(r6, e6, syntax).value))
  {
    CombinedBuild(rc, r4, r6, ec, e4, e6, syntax);
    FamilyBuild(r4, e4, V4, syntax);
    FamilyBuild(r6, e6, V6, syntax);
    var b4 := Build(ParseAll(r4, syntax).value, ParseAll(e4, syntax).value);
    var b6 := Build(ParseAll(r6, syntax).value, ParseAll(e6, syntax).value);
    var bc := Build(ParseAll(rc, syntax).value, ParseAll(ec, syntax).value);
    MaximalPrefixesOnlyCoverage(bc, b4 + b6);
    MaximalPrefixesByFamily(b4, b6);
    var m4, m6 := MaximalPrefixes(b4), MaximalPrefixes(b6);
    RenderAllConcat(m4, m6, syntax);
    var x4, x6 := RenderAll(m4, syntax), RenderAll(m6, syntax);
    ParsedDifference(r4, e4, syntax);
    ParsedDifference(r6, e6, syntax);
    ParsedDifference(rc, ec, syntax);
    SortStringsOfSorted(x4, x6);
  }
}
