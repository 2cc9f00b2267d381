/**
 * The read of the `google_netblock_ip_ranges` data source: its `range_type`
 * selects fixed lists, the lists of one published document, or the
 * difference of the Google document and the Cloud document, and a
 * successful read records the id `netblock-ip-ranges-<range_type>`.
 */
module NetblockResolver {
  import opened Wrappers
  import opened Prefixes
  import opened IpSets
  import opened CidrText
  import opened StringOrder
  import opened NetblockFetch
  import opened NetblockDifference

  const CloudNetblockUrl: string := "https://www.gstatic.com/ipranges/cloud.json"
  const GoogleNetblockUrl: string := "https://www.gstatic.com/ipranges/goog.json"
  const IdPrefix: string := "netblock-ip-ranges-"

  /** The range types the data source knows. */
  datatype RangeType =
    | CloudNetblocks
    | GoogleNetblocks
    | DefaultDomainsNetblocks
    | RestrictedGoogleapis
    | RestrictedGoogleapisWithDirectConnectivity
    | PrivateGoogleapis
    | PrivateGoogleapisWithDirectConnectivity
    | DnsForwarders
    | IapForwarders
    | HealthCheckers
    | LegacyHealthCheckers

  /** The `range_type` value that selects `k`. */
  function Name(k: RangeType): string {
    match k
    case CloudNetblocks => "cloud-netblocks"
    case GoogleNetblocks => "google-netblocks"
    case DefaultDomainsNetblocks => "default-domains-netblocks"
    case RestrictedGoogleapis => "restricted-googleapis"
    case RestrictedGoogleapisWithDirectConnectivity => "restricted-googleapis-with-directconnectivity"
    case PrivateGoogleapis => "private-googleapis"
    case PrivateGoogleapisWithDirectConnectivity => "private-googleapis-with-directconnectivity"
    case DnsForwarders => "dns-forwarders"
    case IapForwarders => "iap-forwarders"
    case HealthCheckers => "health-checkers"
    case LegacyHealthCheckers => "legacy-health-checkers"
  }

  /** The range type a `range_type` value names, if any: the cases of the switch. */
  function RangeTypeNamed(rt: string): (r: Option<RangeType>)
    ensures r.Some? ==> Name(r.value) == rt
    ensures r.None? ==> forall k :: Name(k) != rt
  {
    match rt
    case "cloud-netblocks" => Some(CloudNetblocks)
    case "google-netblocks" => Some(GoogleNetblocks)
    case "default-domains-netblocks" => Some(DefaultDomainsNetblocks)
    case "restricted-googleapis" => Some(RestrictedGoogleapis)
    case "restricted-googleapis-with-directconnectivity" => Some(RestrictedGoogleapisWithDirectConnectivity)
    case "private-googleapis" => Some(PrivateGoogleapis)
    case "private-googleapis-with-directconnectivity" => Some(PrivateGoogleapisWithDirectConnectivity)
    case "dns-forwarders" => Some(DnsForwarders)
    case "iap-forwarders" => Some(IapForwarders)
    case "health-checkers" => Some(HealthCheckers)
    case "legacy-health-checkers" => Some(LegacyHealthCheckers)
    case _ => None
  }

  /** Every range type is selected by its own name. */
  lemma NamesSelect(k: RangeType)
    ensures RangeTypeNamed(Name(k)) == Some(k)
  {
    if k.CloudNetblocks? || k.GoogleNetblocks? || k.DefaultDomainsNetblocks? {
      DynamicNamesSelect(k);
    } else if k.RestrictedGoogleapis? || k.RestrictedGoogleapisWithDirectConnectivity? ||
              k.PrivateGoogleapis? || k.PrivateGoogleapisWithDirectConnectivity? {
      DualStackNamesSelect(k);
    } else {
      Ipv4OnlyNamesSelect(k);
    }
  }

  lemma DynamicNamesSelect(k: RangeType)
    requires k.CloudNetblocks? || k.GoogleNetblocks? || k.DefaultDomainsNetblocks?
    ensures RangeTypeNamed(Name(k)) == Some(k)
  {
  }

  lemma DualStackNamesSelect(k: RangeType)
    requires k.RestrictedGoogleapis? || k.RestrictedGoogleapisWithDirectConnectivity? ||
             k.PrivateGoogleapis? || k.PrivateGoogleapisWithDirectConnectivity?
    ensures RangeTypeNamed(Name(k)) == Some(k)
  {
  }

  lemma Ipv4OnlyNamesSelect(k: RangeType)
    requires k.DnsForwarders? || k.IapForwarders? || k.HealthCheckers? || k.LegacyHealthCheckers?
    ensures RangeTypeNamed(Name(k)) == Some(k)
  {
    if k.DnsForwarders? || k.IapForwarders? {
      ForwarderNamesSelect(k);
    } else {
      CheckerNamesSelect(k);
    }
  }

  lemma ForwarderNamesSelect(k: RangeType)
    requires k.DnsForwarders? || k.IapForwarders?
    ensures RangeTypeNamed(Name(k)) == Some(k)
  {
  }

  lemma CheckerNamesSelect(k: RangeType)
    requires k.HealthCheckers? || k.LegacyHealthCheckers?
    ensures RangeTypeNamed(Name(k)) == Some(k)
  {
  }

  /** The range types whose lists are read from a published document. */
  predicate IsDynamic(k: RangeType) {
    k == CloudNetblocks || k == GoogleNetblocks || k == DefaultDomainsNetblocks
  }

  /** The fixed range types with an IPv4 and an IPv6 list. */
  predicate IsDualStack(k: RangeType) {
    k == RestrictedGoogleapis || k == RestrictedGoogleapisWithDirectConnectivity ||
    k == PrivateGoogleapis || k == PrivateGoogleapisWithDirectConnectivity
  }

  /** The fixed IPv4 list of a fixed range type: every fixed type has one, no document type does. */
  function StaticIpv4(k: RangeType): (r: seq<string>)
    ensures |r| > 0 <==> !IsDynamic(k)
  {
    match k
    case RestrictedGoogleapis => ["199.36.153.4/30"]
    case RestrictedGoogleapisWithDirectConnectivity => ["199.36.153.4/30", "34.126.0.0/18"]
    case PrivateGoogleapis => ["199.36.153.8/30"]
    case PrivateGoogleapisWithDirectConnectivity => ["199.36.153.8/30", "34.126.0.0/18"]
    case DnsForwarders => ["35.199.192.0/19"]
    case IapForwarders => ["35.235.240.0/20"]
    case HealthCheckers => ["35.191.0.0/16", "130.211.0.0/22"]
    case LegacyHealthCheckers => ["35.191.0.0/16", "209.85.152.0/22", "209.85.204.0/22"]
    case _ => []
  }

  /** The fixed IPv6 list of a dual-stack range type: exactly those have one. */
  function StaticIpv6(k: RangeType): (r: seq<string>)
    ensures |r| > 0 <==> IsDualStack(k)
  {
    match k
    case RestrictedGoogleapis => ["2600:2d00:0002:1000::/64"]
    case RestrictedGoogleapisWithDirectConnectivity => ["2600:2d00:0002:1000::/64", "2001:4860:8040::/42"]
    case PrivateGoogleapis => ["2600:2d00:0002:2000::/64"]
    case PrivateGoogleapisWithDirectConnectivity => ["2600:2d00:0002:2000::/64", "2001:4860:8040::/42"]
    case _ => []
  }

  /** The list attributes a read sets; the IPv4-only types leave the IPv6 one unset. */
  datatype Lists = Lists(cidrBlocks: seq<string>, ipv4: seq<string>, ipv6: Option<seq<string>>)

  /** What a successful read records: the list attributes and the id. */
  datatype Outputs = Outputs(lists: Lists, id: string)

  /** The lists of a key map as the attributes get them: an absent key sets an empty list. */
  function Published(m: Blocks): Lists {
    Lists(Get(m, CidrBlocksKey), Get(m, Ipv4Key), Some(Get(m, Ipv6Key)))
  }

  /**
   * One case of the switch. Fetching is the caller's `fetch`; for the
   * default domains the Google document is fetched before the Cloud one,
   * so its failure is the one reported when both fail.
   */
  function Read(k: RangeType, fetch: Fetcher, t: Ipv6Text): (r: Result<Lists, Error>)
    ensures r.Failure? ==> !r.error.UnknownRangeType?
  {
    match k
    case CloudNetblocks =>
      (match CidrBlocksFromUrl(CloudNetblockUrl, fetch)
       case Failure(e) => Failure(e)
       case Success(m) => Success(Published(m)))
    case GoogleNetblocks =>
      (match CidrBlocksFromUrl(GoogleNetblockUrl, fetch)
       case Failure(e) => Failure(e)
       case Success(m) => Success(Published(m)))
    case DefaultDomainsNetblocks =>
      (match CidrBlocksFromUrl(GoogleNetblockUrl, fetch)
       case Failure(e) => Failure(e)
       case Success(googleBlocks) =>
         match CidrBlocksFromUrl(CloudNetblockUrl, fetch)
         case Failure(e) => Failure(e)
         case Success(cloudBlocks) =>
           match CidrsDifference(googleBlocks, cloudBlocks, Netip(t))
           case Failure(e) => Failure(e)
           case Success(m) => Success(Published(m)))
    case _ =>
      var v4 := StaticIpv4(k);
      if IsDualStack(k) then
        var v6 := StaticIpv6(k);
        Success(Lists(v4 + v6, v4, Some(v6)))
      else
        Success(Lists(v4, v4, None))
  }

  /** `dataSourceGoogleNetblockIpRangesRead`: the switch, then the id. */
  function Resolve(rt: string, fetch: Fetcher, t: Ipv6Text): (r: Result<Outputs, Error>)
    ensures r.Success? ==> r.value.id == IdPrefix + rt
  {
    match RangeTypeNamed(rt)
    case None => Failure(UnknownRangeType(rt))
    case Some(k) =>
      match Read(k, fetch, t)
      case Failure(e) => Failure(e)
      case Success(lists) => Success(Outputs(lists, IdPrefix + rt))
  }

  // ---------------------------------------------------------------------------
  // Range types and errors

  /** A read is refused as an unknown range type exactly when no range type has that name. */
  lemma UnknownExactly(rt: string, fetch: Fetcher, t: Ipv6Text)
    ensures Resolve(rt, fetch, t) == Failure(UnknownRangeType(rt)) <==> forall k :: Name(k) != rt
  {
  }

  /** A named range type reads its case of the switch and records the id of its name. */
  lemma ResolveNamed(k: RangeType, fetch: Fetcher, t: Ipv6Text)
    ensures Read(k, fetch, t).Failure? ==> Resolve(Name(k), fetch, t) == Failure(Read(k, fetch, t).error)
    ensures Read(k, fetch, t).Success? ==>
      Resolve(Name(k), fetch, t) == Success(Outputs(Read(k, fetch, t).value, IdPrefix + Name(k)))
  {
    NamesSelect(k);
  }

  /** The fixed range types neither fetch nor read IPv6 text: their lists are the same for every fetcher. */
  lemma StaticIgnoresFetch(k: RangeType, fetch: Fetcher, other: Fetcher, t: Ipv6Text, u: Ipv6Text)
    requires !IsDynamic(k)
    ensures Read(k, fetch, t).Success?
    ensures Read(k, fetch, t) == Read(k, other, u)
  {
  }

  /**
   * The fixed lists: the literals as written, the combined list the IPv4
   * list followed by the IPv6 one, and no IPv6 list for the IPv4-only types.
   */
  lemma StaticLists(k: RangeType, fetch: Fetcher, t: Ipv6Text)
    requires !IsDynamic(k)
    ensures Read(k, fetch, t).Success?
    ensures var l := Read(k, fetch, t).value;
      l.ipv4 == StaticIpv4(k) && |l.ipv4| > 0 &&
      (l.ipv6.Some? <==> IsDualStack(k)) &&
      (l.ipv6.Some? ==> l.ipv6.value == StaticIpv6(k) && |l.ipv6.value| > 0) &&
      l.cidrBlocks == l.ipv4 + (if l.ipv6.Some? then l.ipv6.value else [])
  {
  }

  /** The literals are kept verbatim: the IPv6 text keeps its leading zeros. */
  lemma RestrictedLiterals(fetch: Fetcher, t: Ipv6Text)
    ensures Resolve("restricted-googleapis", fetch, t) ==
      Success(Outputs(Lists(["199.36.153.4/30", "2600:2d00:0002:1000::/64"], ["199.36.153.4/30"],
                            Some(["2600:2d00:0002:1000::/64"])), "netblock-ip-ranges-" + "restricted-googleapis"))
  {
    ResolveNamed(RestrictedGoogleapis, fetch, t);
    var v4, v6 := "199.36.153.4/30", "2600:2d00:0002:1000::/64";
    assert Read(RestrictedGoogleapis, fetch, t) == Success(Lists([v4] + [v6], [v4], Some([v6])));
    PairConcat(v4, v6);
  }

  lemma PairConcat<T>(a: T, b: T)
    ensures [a] + [b] == [a, b]
  {
  }

  // ---------------------------------------------------------------------------
  // Documents passed through

  /**
   * `cloud-netblocks` and `google-netblocks` publish the partition of their
   * document, or report the failed fetch; a failed request names the URL.
   */
  lemma PassThrough(k: RangeType, url: string, fetch: Fetcher, t: Ipv6Text)
    requires (k == CloudNetblocks && url == CloudNetblockUrl) || (k == GoogleNetblocks && url == GoogleNetblockUrl)
    ensures fetch(url).Failure? ==> Read(k, fetch, t) == Failure(FetchError(url, fetch(url).error))
    ensures fetch(url).Success? ==>
      var es := fetch(url).value.prefixes;
      Read(k, fetch, t) == Success(Lists(Combined(es), Ipv4Blocks(es), Some(Ipv6Blocks(es))))
  {
  }

  /** A read depends on the fetcher only through the documents its range type reads. */
  lemma ReadsOnlyItsDocuments(k: RangeType, fetch: Fetcher, other: Fetcher, t: Ipv6Text)
    requires k == CloudNetblocks ==> fetch(CloudNetblockUrl) == other(CloudNetblockUrl)
    requires k == GoogleNetblocks ==> fetch(GoogleNetblockUrl) == other(GoogleNetblockUrl)
    requires k == DefaultDomainsNetblocks ==>
      fetch(GoogleNetblockUrl) == other(GoogleNetblockUrl) && fetch(CloudNetblockUrl) == other(CloudNetblockUrl)
    ensures Read(k, fetch, t) == Read(k, other, t)
  {
  }

  // ---------------------------------------------------------------------------
  // The default domains: Google's ranges minus Cloud's

  /**
   * The errors of `default-domains-netblocks`, in the order the read meets
   * them: the Google fetch, the Cloud fetch, then any text that does not parse.
   */
  lemma DefaultDomainsErrors(fetch: Fetcher, t: Ipv6Text)
    ensures fetch(GoogleNetblockUrl).Failure? ==>
      Read(DefaultDomainsNetblocks, fetch, t) == Failure(FetchError(GoogleNetblockUrl, fetch(GoogleNetblockUrl).error))
    ensures fetch(GoogleNetblockUrl).Success? && fetch(CloudNetblockUrl).Failure? ==>
      Read(DefaultDomainsNetblocks, fetch, t) == Failure(FetchError(CloudNetblockUrl, fetch(CloudNetblockUrl).error))
    ensures fetch(GoogleNetblockUrl).Success? && fetch(CloudNetblockUrl).Success? ==>
      var g := CidrBlocksOf(fetch(GoogleNetblockUrl).value.prefixes);
      var c := CidrBlocksOf(fetch(CloudNetblockUrl).value.prefixes);
      (Read(DefaultDomainsNetblocks, fetch, t).Failure? <==> !ReadsAll(g, c, Netip(t))) &&
      (!ReadsAll(g, c, Netip(t)) ==> Read(DefaultDomainsNetblocks, fetch, t) == Failure(InvalidPrefix))
  {
  }

  /**
   * One published list of the default domains: empty when the Google
   * document has no list of that kind (the Cloud list is then not read),
   * otherwise the difference of the two documents' lists under its key.
   */
  lemma DefaultDomainsKey(g: seq<PrefixEntry>, c: seq<PrefixEntry>, t: Ipv6Text, k: string, gl: seq<string>, cl: seq<string>)
    requires ReadsAll(CidrBlocksOf(g), CidrBlocksOf(c), Netip(t))
    requires Get(CidrBlocksOf(g), k) == gl && Get(CidrBlocksOf(c), k) == cl
    requires k in CidrBlocksOf(g) <==> gl != []
    ensures gl == [] ==> Get(CidrsDifference(CidrBlocksOf(g), CidrBlocksOf(c), Netip(t)).value, k) == []
    ensures gl != [] ==>
      BlockDifference(gl, cl, Netip(t)) == Success(Get(CidrsDifference(CidrBlocksOf(g), CidrBlocksOf(c), Netip(t)).value, k))
  {
    if k in CidrBlocksOf(g) {
      CidrsDifferenceAt(CidrBlocksOf(g), CidrBlocksOf(c), Netip(t), k);
    }
  }

  /**
   * With both documents fetched and every text parsed, each published list
   * is the difference of the two documents' lists of that kind, or empty
   * when the Google document has none of that kind.
   */
  lemma DefaultDomainsLists(fetch: Fetcher, t: Ipv6Text)
    requires fetch(GoogleNetblockUrl).Success? && fetch(CloudNetblockUrl).Success?
    requires Read(DefaultDomainsNetblocks, fetch, t).Success?
    ensures var g := fetch(GoogleNetblockUrl).value.prefixes;
      var c := fetch(CloudNetblockUrl).value.prefixes;
      var l := Read(DefaultDomainsNetblocks, fetch, t).value;
      l.ipv6.Some? &&
      DifferenceListed(Combined(g), Combined(c), t, l.cidrBlocks) &&
      DifferenceListed(Ipv4Blocks(g), Ipv4Blocks(c), t, l.ipv4) &&
      DifferenceListed(Ipv6Blocks(g), Ipv6Blocks(c), t, l.ipv6.value)
  {
    var g := fetch(GoogleNetblockUrl).value.prefixes;
    var c := fetch(CloudNetblockUrl).value.prefixes;
    DefaultDomainsRead(fetch, t);
    DefaultDomainsKey(g, c, t, CidrBlocksKey, Combined(g), Combined(c));
    DefaultDomainsKey(g, c, t, Ipv4Key, Ipv4Blocks(g), Ipv4Blocks(c));
    DefaultDomainsKey(g, c, t, Ipv6Key, Ipv6Blocks(g), Ipv6Blocks(c));
  }

  /** A successful default-domains read publishes the difference of the two documents' maps. */
  lemma DefaultDomainsRead(fetch: Fetcher, t: Ipv6Text)
    requires fetch(GoogleNetblockUrl).Success? && fetch(CloudNetblockUrl).Success?
    requires Read(DefaultDomainsNetblocks, fetch, t).Success?
    ensures var g := CidrBlocksOf(fetch(GoogleNetblockUrl).value.prefixes);
      var c := CidrBlocksOf(fetch(CloudNetblockUrl).value.prefixes);
      ReadsAll(g, c, Netip(t)) &&
      Read(DefaultDomainsNetblocks, fetch, t).value == Published(CidrsDifference(g, c, Netip(t)).value)
  {
  }

  /** `out` is what getCidrsDifference publishes for the lists `gl` and `cl`. */
  predicate DifferenceListed(gl: seq<string>, cl: seq<string>, t: Ipv6Text, out: seq<string>) {
    if gl == [] then out == [] else BlockDifference(gl, cl, Netip(t)) == Success(out)
  }

  /**
   * What a published list of the default domains means, given lawful IPv6
   * text: sorted texts of canonical, pairwise disjoint prefixes that cover
   * exactly the addresses of the Google list that the Cloud list does not.
   */
  lemma DifferenceListedMeans(gl: seq<string>, cl: seq<string>, t: Ipv6Text, out: seq<string>)
    requires Lawful(t) && DifferenceListed(gl, cl, t, out)
    ensures Sorted(out)
    ensures ParseAll(out, Netip(t)).Some?
    ensures forall x :: x in ParseAll(out, Netip(t)).value ==> Canonical(x)
    ensures forall x, y :: x in ParseAll(out, Netip(t)).value && y in ParseAll(out, Netip(t)).value && x != y ==> !Overlaps(x, y)
    ensures forall a :: Covers(ParseAll(out, Netip(t)).value, a) <==> InDifference(gl, cl, Netip(t), a)
  {
    if gl != [] {
      BlockDifferenceMeans(gl, cl, Netip(t), out);
    }
  }

  /** The entries of a document whose IPv4 fields read as IPv4 and whose IPv6-only fields read as IPv6. */
  ghost predicate FamiliesAsLabelled(es: seq<PrefixEntry>, t: Ipv6Text) {
    TextsOfFamily(Ipv4Blocks(es), V4, Netip(t)) && TextsOfFamily(Ipv6Blocks(es), V6, Netip(t))
  }

  /**
   * When each document's fields hold prefixes of their own family, the
   * combined list of the default domains is the sorted union of the IPv4
   * and IPv6 lists, not their concatenation.
   */
  lemma DefaultDomainsCombined(fetch: Fetcher, t: Ipv6Text)
    requires fetch(GoogleNetblockUrl).Success? && fetch(CloudNetblockUrl).Success?
    requires FamiliesAsLabelled(fetch(GoogleNetblockUrl).value.prefixes, t)
    requires FamiliesAsLabelled(fetch(CloudNetblockUrl).value.prefixes, t)
    requires Read(DefaultDomainsNetblocks, fetch, t).Success?
    ensures var l := Read(DefaultDomainsNetblocks, fetch, t).value;
      l.ipv6.Some? && l.cidrBlocks == SortStrings(l.ipv4 + l.ipv6.value)
  {
    var g := fetch(GoogleNetblockUrl).value.prefixes;
    var c := fetch(CloudNetblockUrl).value.prefixes;
    DefaultDomainsLists(fetch, t);
    CombinedMembers(g);
    CombinedMembers(c);
    var syntax := Netip(t);
    BlockDifferenceByFamily(Combined(g), Ipv4Blocks(g), Ipv6Blocks(g), Combined(c), Ipv4Blocks(c), Ipv6Blocks(c), syntax);
    TextsOfFamilyParse(Ipv4Blocks(c), V4, syntax);
    TextsOfFamilyParse(Ipv6Blocks(c), V6, syntax);
    if Ipv4Blocks(g) == [] {
      BlockDifferenceOfNothing(Ipv4Blocks(c), syntax);
    }
    if Ipv6Blocks(g) == [] {
      BlockDifferenceOfNothing(Ipv6Blocks(c), syntax);
    }
    if Combined(g) == [] {
      CombinedIsUnion(g);
      assert SortStrings([] + []) == [];
    }
  }

  /** A text is in the combined list exactly when it is in the IPv4 or the IPv6 list. */
  lemma CombinedMembers(es: seq<PrefixEntry>)
    ensures forall s :: s in Combined(es) <==> s in Ipv4Blocks(es) || s in Ipv6Blocks(es)
  {
    CombinedIsUnion(es);
    forall s ensures s in Combined(es) <==> s in Ipv4Blocks(es) || s in Ipv6Blocks(es) {
      assert s in Combined(es) <==> s in multiset(Combined(es));
      assert s in Ipv4Blocks(es) <==> s in multiset(Ipv4Blocks(es));
      assert s in Ipv6Blocks(es) <==> s in multiset(Ipv6Blocks(es));
    }
  }
}
