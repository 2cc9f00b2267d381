/**
 * The published range lists (`goog.json`, `cloud.json`) and how one of them
 * is split into the three output lists: every IPv4 prefix, every IPv6
 * prefix, and all of them in document order.
 */
module NetblockFetch {
  import opened Wrappers

  /** One entry of the `prefixes` array; a field missing from the document is "". */
  datatype PrefixEntry = PrefixEntry(ipv4Prefix: string, ipv6Prefix: string)

  /** The decoded document. */
  datatype GoogRanges = GoogRanges(syncToken: string, creationTime: string, prefixes: seq<PrefixEntry>)

  /** Why fetching and decoding a document failed. */
  datatype FetchFailure = RequestFailed | ReadFailed | InvalidJson

  /**
   * The errors the data source can report. Only a failed request names the
   * URL: the error `http.Get` returns carries it, while the read and decode
   * errors do not.
   */
  datatype Error =
    | RequestError(url: string)
    | ReadError
    | JsonError
    | InvalidPrefix
    | UnknownRangeType(rangeType: string)

  /** Fetching and decoding a document, supplied by the caller. */
  type Fetcher = string -> Result<GoogRanges, FetchFailure>

  const CidrBlocksKey: string := "cidr_blocks"
  const Ipv4Key: string := "cidr_blocks_ipv4"
  const Ipv6Key: string := "cidr_blocks_ipv6"

  type Blocks = map<string, seq<string>>

  /** A Go map lookup: the stored list, or the empty (nil) list when the key is absent. */
  function Get(m: Blocks, k: string): seq<string> {
    if k in m then m[k] else []
  }

  /** Which list an entry goes to: IPv4 is looked at first, empty entries go nowhere. */
  datatype Slot = ToIpv4 | ToIpv6 | Skipped

  function SlotOf(e: PrefixEntry): Slot {
    if |e.ipv4Prefix| > 0 then ToIpv4 else if |e.ipv6Prefix| > 0 then ToIpv6 else Skipped
  }

  function Last<T>(s: seq<T>): T
    requires |s| > 0
  {
    s[|s| - 1]
  }

  function Init<T>(s: seq<T>): seq<T>
    requires |s| > 0
  {
    s[..|s| - 1]
  }

  /** The IPv4 list: the IPv4 field of each entry that has one. */
  function Ipv4Blocks(es: seq<PrefixEntry>): seq<string> {
    if es == [] then []
    else Ipv4Blocks(Init(es)) + (if SlotOf(Last(es)) == ToIpv4 then [Last(es).ipv4Prefix] else [])
  }

  /** The IPv6 list: the IPv6 field of each entry that has one and no IPv4 field. */
  function Ipv6Blocks(es: seq<PrefixEntry>): seq<string> {
    if es == [] then []
    else Ipv6Blocks(Init(es)) + (if SlotOf(Last(es)) == ToIpv6 then [Last(es).ipv6Prefix] else [])
  }

  /** The combined list: the field each entry contributes, in document order. */
  function Combined(es: seq<PrefixEntry>): seq<string> {
    if es == [] then []
    else
      var e := Last(es);
      Combined(Init(es)) + match SlotOf(e)
        case ToIpv4 => [e.ipv4Prefix]
        case ToIpv6 => [e.ipv6Prefix]
        case Skipped => []
  }

  /** A key is stored once something was appended under it, so only with a nonempty list. */
  function Put(m: Blocks, k: string, v: seq<string>): Blocks {
    if v == [] then m else m[k := v]
  }

  /**
   * The map `getCidrBlocksFromUrl` returns for a decoded document: only the
   * three keys occur, each exactly when its list is nonempty, since a key is
   * created by its first append.
   */
  function CidrBlocksOf(es: seq<PrefixEntry>): (m: Blocks)
    ensures forall k :: k in m ==> k == CidrBlocksKey || k == Ipv4Key || k == Ipv6Key
    ensures CidrBlocksKey in m <==> Combined(es) != []
    ensures Ipv4Key in m <==> Ipv4Blocks(es) != []
    ensures Ipv6Key in m <==> Ipv6Blocks(es) != []
    ensures Get(m, CidrBlocksKey) == Combined(es)
    ensures Get(m, Ipv4Key) == Ipv4Blocks(es)
    ensures Get(m, Ipv6Key) == Ipv6Blocks(es)
  {
    Put(Put(Put(map[], CidrBlocksKey, Combined(es)), Ipv4Key, Ipv4Blocks(es)), Ipv6Key, Ipv6Blocks(es))
  }

  /**
   * The loop over the document's entries: each IPv4 prefix is appended to the
   * IPv4 list and the combined list, otherwise each IPv6 prefix to the IPv6
   * list and the combined list.
   */
  method GetCidrBlocks(ranges: GoogRanges) returns (blocks: Blocks)
    ensures blocks == CidrBlocksOf(ranges.prefixes)
  {
    var es := ranges.prefixes;
    blocks := map[];
    var i := 0;
    while i < |es|
      invariant 0 <= i <= |es|
      invariant blocks == CidrBlocksOf(es[..i])
    {
      var element := es[i];
      assert Init(es[..i + 1]) == es[..i] && Last(es[..i + 1]) == element;
      if |element.ipv4Prefix| > 0 {
        blocks := blocks[Ipv4Key := Get(blocks, Ipv4Key) + [element.ipv4Prefix]];
        blocks := blocks[CidrBlocksKey := Get(blocks, CidrBlocksKey) + [element.ipv4Prefix]];
      } else if |element.ipv6Prefix| > 0 {
        blocks := blocks[Ipv6Key := Get(blocks, Ipv6Key) + [element.ipv6Prefix]];
        blocks := blocks[CidrBlocksKey := Get(blocks, CidrBlocksKey) + [element.ipv6Prefix]];
      }
      SameBlocks(blocks, es[..i + 1]);
      i := i + 1;
    }
    assert es[..i] == es;
  }

  /** The error reported for a failed fetch of `url`. */
  function FetchError(url: string, f: FetchFailure): Error {
    match f
    case RequestFailed => RequestError(url)
    case ReadFailed => ReadError
    case InvalidJson => JsonError
  }

  /**
   * `getCidrBlocksFromUrl`: it succeeds exactly when the document is fetched
   * and decoded, and then holds the document's three lists under their keys
   * and nothing else.
   */
  function CidrBlocksFromUrl(url: string, fetch: Fetcher): (r: Result<Blocks, Error>)
    ensures r.Success? <==> fetch(url).Success?
    ensures r.Failure? ==> r.error == FetchError(url, fetch(url).error)
    ensures r.Failure? ==> (r.error.RequestError? <==> fetch(url).error == RequestFailed)
    ensures r.Success? ==>
      var es := fetch(url).value.prefixes;
      (forall k :: k in r.value ==> (k == CidrBlocksKey || k == Ipv4Key || k == Ipv6Key) && r.value[k] != []) &&
      Get(r.value, CidrBlocksKey) == Combined(es) &&
      Get(r.value, Ipv4Key) == Ipv4Blocks(es) &&
      Get(r.value, Ipv6Key) == Ipv6Blocks(es)
  {
    match fetch(url)
    case Failure(f) => Failure(FetchError(url, f))
    case Success(ranges) => Success(CidrBlocksOf(ranges.prefixes))
  }

  // ---------------------------------------------------------------------------
  // Properties of the partition

  /** A map with the three lists of `es` under their keys, and nothing else, is CidrBlocksOf(es). */
  lemma SameBlocks(m: Blocks, es: seq<PrefixEntry>)
    requires forall k :: k in m ==> (k == CidrBlocksKey || k == Ipv4Key || k == Ipv6Key) && m[k] != []
    requires Get(m, CidrBlocksKey) == Combined(es)
    requires Get(m, Ipv4Key) == Ipv4Blocks(es)
    requires Get(m, Ipv6Key) == Ipv6Blocks(es)
    ensures m == CidrBlocksOf(es)
  {
  }

  /** A string is in the IPv4 list exactly when some entry has it as its IPv4 field. */
  lemma {:induction false} Ipv4BlocksMembers(es: seq<PrefixEntry>, x: string)
    ensures x in Ipv4Blocks(es) <==> x != "" && exists i :: 0 <= i < |es| && es[i].ipv4Prefix == x
  {
    if es != [] {
      Ipv4BlocksMembers(Init(es), x);
      if exists i :: 0 <= i < |es| && es[i].ipv4Prefix == x {
        var i :| 0 <= i < |es| && es[i].ipv4Prefix == x;
        if i < |es| - 1 {
          assert Init(es)[i] == es[i];
        }
      }
    }
  }

  /**
   * A string is in the IPv6 list exactly when some entry has it as its IPv6
   * field and has no IPv4 field.
   */
  lemma {:induction false} Ipv6BlocksMembers(es: seq<PrefixEntry>, x: string)
    ensures x in Ipv6Blocks(es) <==>
      x != "" && exists i :: 0 <= i < |es| && es[i].ipv4Prefix == "" && es[i].ipv6Prefix == x
  {
    if es != [] {
      Ipv6BlocksMembers(Init(es), x);
      if exists i :: 0 <= i < |es| && es[i].ipv4Prefix == "" && es[i].ipv6Prefix == x {
        var i :| 0 <= i < |es| && es[i].ipv4Prefix == "" && es[i].ipv6Prefix == x;
        if i < |es| - 1 {
          assert Init(es)[i] == es[i];
        }
      }
    }
  }

  /** The combined list holds exactly the entries of the other two lists. */
  lemma {:induction false} CombinedIsUnion(es: seq<PrefixEntry>)
    ensures |Combined(es)| == |Ipv4Blocks(es)| + |Ipv6Blocks(es)|
    ensures multiset(Combined(es)) == multiset(Ipv4Blocks(es)) + multiset(Ipv6Blocks(es))
  {
    if es != [] {
      CombinedIsUnion(Init(es));
    }
  }

  /** `c` is a merge of `a` and `b` that keeps the order within each. */
  predicate Interleaves(c: seq<string>, a: seq<string>, b: seq<string>)
    decreases |c|
  {
    if c == [] then a == [] && b == []
    else
      (|a| > 0 && Last(c) == Last(a) && Interleaves(Init(c), Init(a), b)) ||
      (|b| > 0 && Last(c) == Last(b) && Interleaves(Init(c), a, Init(b)))
  }

  /** The combined list keeps the document order of both per-family lists. */
  lemma {:induction false} CombinedInterleaves(es: seq<PrefixEntry>)
    ensures Interleaves(Combined(es), Ipv4Blocks(es), Ipv6Blocks(es))
  {
    if es != [] {
      var init := Init(es);
      CombinedInterleaves(init);
      var c, a, b := Combined(es), Ipv4Blocks(es), Ipv6Blocks(es);
      match SlotOf(Last(es))
      case ToIpv4 =>
        assert Init(c) == Combined(init) && Init(a) == Ipv4Blocks(init) && b == Ipv6Blocks(init);
      case ToIpv6 =>
        assert Init(c) == Combined(init) && Init(b) == Ipv6Blocks(init) && a == Ipv4Blocks(init);
      case Skipped =>
        assert c == Combined(init) && a == Ipv4Blocks(init) && b == Ipv6Blocks(init);
    }
  }

  /** Two documents one after the other give the lists of each, one after the other. */
  lemma PartitionConcat(xs: seq<PrefixEntry>, ys: seq<PrefixEntry>)
    ensures Combined(xs + ys) == Combined(xs) + Combined(ys)
    ensures Ipv4Blocks(xs + ys) == Ipv4Blocks(xs) + Ipv4Blocks(ys)
    ensures Ipv6Blocks(xs + ys) == Ipv6Blocks(xs) + Ipv6Blocks(ys)
  {
    CombinedConcat(xs, ys);
    Ipv4BlocksConcat(xs, ys);
    Ipv6BlocksConcat(xs, ys);
  }

  lemma {:induction false} CombinedConcat(xs: seq<PrefixEntry>, ys: seq<PrefixEntry>)
    ensures Combined(xs + ys) == Combined(xs) + Combined(ys)
  {
    if ys == [] {
      assert xs + ys == xs;
    } else {
      InitOfConcat(xs, ys);
      CombinedConcat(xs, Init(ys));
    }
  }

  lemma {:induction false} Ipv4BlocksConcat(xs: seq<PrefixEntry>, ys: seq<PrefixEntry>)
    ensures Ipv4Blocks(xs + ys) == Ipv4Blocks(xs) + Ipv4Blocks(ys)
  {
    if ys == [] {
      assert xs + ys == xs;
    } else {
      InitOfConcat(xs, ys);
      Ipv4BlocksConcat(xs, Init(ys));
    }
  }

  lemma {:induction false} Ipv6BlocksConcat(xs: seq<PrefixEntry>, ys: seq<PrefixEntry>)
    ensures Ipv6Blocks(xs + ys) == Ipv6Blocks(xs) + Ipv6Blocks(ys)
  {
    if ys == [] {
      assert xs + ys == xs;
    } else {
      InitOfConcat(xs, ys);
      Ipv6BlocksConcat(xs, Init(ys));
    }
  }

  lemma InitOfConcat<T>(xs: seq<T>, ys: seq<T>)
    requires |ys| > 0
    ensures Init(xs + ys) == xs + Init(ys) && Last(xs + ys) == Last(ys)
  {
    assert (xs + ys)[..|xs + ys| - 1] == xs + ys[..|ys| - 1];
  }

  /** An entry with both fields set contributes its IPv4 prefix only. */
  lemma DualEntryGoesToIpv4(e: PrefixEntry)
    requires e.ipv4Prefix != "" && e.ipv6Prefix != ""
    ensures Combined([e]) == Ipv4Blocks([e]) == [e.ipv4Prefix] && Ipv6Blocks([e]) == []
  {
    assert Init([e]) == [] && Last([e]) == e;
  }
}
