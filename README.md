# Netblock IP ranges, modelled in Dafny

This project models the read of the Terraform data source
`google_netblock_ip_ranges`. The read takes a `range_type` and does one of
three things:

- it returns fixed lists of CIDR blocks;
- it fetches one of Google's published range documents (`goog.json` or
  `cloud.json`) and splits its entries into an IPv4 list, an IPv6 list and
  a combined list;
- for `default-domains-netblocks`, it computes Google's ranges minus
  Cloud's ranges, key by key. It builds an address set from the reference
  prefixes, removes the excluded prefixes, and writes the rest out as the
  set's largest prefixes in sorted text order.

A successful read records the id `netblock-ip-ranges-<range_type>`. Any
other `range_type` is an error.

The modules follow the structure of the program and of the libraries it
calls:

| module | file | what it holds |
|---|---|---|
| `Bits` | bits.dfy | powers of two and divisibility facts |
| `Prefixes` | prefixes.dfy | address families, prefixes as numbers, masking, halves, containment |
| `IpSets` | ipset.dfy | sets of addresses as lists of prefixes: subtracting a prefix (by halving), and listing a set as its maximal canonical prefixes (`netipx.IPSet.Prefixes`) |
| `IpSetBuilders` | ipset_builder.dfy | `netipx.IPSetBuilder` as a class whose `blocks` field `AddPrefix` and `RemovePrefix` update in place; `IPSet()` freezes it |
| `CidrText` | cidr_text.dfy | `netip.ParsePrefix` and `netip.Prefix.String`: decimal, dotted-quad IPv4, address-family choice, the slash and the length |
| `StringOrder` | string_order.dfy | `sort.Strings`, as an insertion sort; any sorted permutation is proved to give the same list |
| `NetblockFetch` | netblock_fetch.dfy | the document types and the partition loop of `getCidrBlocksFromUrl` (a method with a loop invariant) |
| `NetblockDifference` | netblock_difference.dfy | `getCidrsDifference`: its key loop and its inner loops as methods, proved against the function `CidrsDifference` |
| `NetblockResolver` | netblock_resolver.dfy | the `range_type` switch, the fixed tables, and the id |

Three things are parameters, not modelled code:

- Fetching and decoding a document is a `Fetcher`, a function from URL to
  decoded document or failure.
- IPv6 address text is an `Ipv6Text` codec. The laws assumed of it are
  stated by `CidrText.Lawful`.
- The attribute writes are the `Outputs` value that `Resolve` returns.

Three facts about the code shape what the lists contain:

- An entry with both fields set goes to the IPv4 list only. The IPv4 field
  is tested first, and the IPv6 test is an `else if` (Go line 263)
  (`NetblockFetch.DualEntryGoesToIpv4`).
- The difference is taken per key of the map (Go line 276): separately for
  `cidr_blocks`, `cidr_blocks_ipv4` and `cidr_blocks_ipv6`. So the combined
  list of `default-domains-netblocks` is the sorted union of the two family
  lists, not their concatenation (`NetblockResolver.DefaultDomainsCombined`).
- Only the keys of the Google map are visited (Go lines 276 and 286). For a
  key that the Google document lacks, the Cloud list under it is never
  parsed, and text there that does not parse causes no error
  (`NetblockResolver.DefaultDomainsKey`).

## Model

| member | source | states |
|---|---|---|
| NetblockFetch.GetCidrBlocks | mmv1/third_party/terraform/services/resourcemanager/data_source_google_netblock_ip_ranges.go:258-268 | the loop over the entries builds the map that holds the combined, IPv4 and IPv6 lists under their three keys |
| NetblockFetch.CidrBlocksFromUrl | mmv1/third_party/terraform/services/resourcemanager/data_source_google_netblock_ip_ranges.go:236-271 | it succeeds iff the document is fetched and decoded, and then holds the combined, IPv4 and IPv6 lists of its entries under their keys and no other key; a failed request names the URL, and a failed read or decode does not |
| NetblockFetch.CidrBlocksOf | mmv1/third_party/terraform/services/resourcemanager/data_source_google_netblock_ip_ranges.go:237-270 | only the three keys occur, each exactly when its list is nonempty (a key is created by its first append), and a lookup under each key gives that list |
| NetblockFetch.SameBlocks | mmv1/third_party/terraform/services/resourcemanager/data_source_google_netblock_ip_ranges.go:258-268 | a map holding the three lists under their keys and nothing else is the partition (the loop's step) |
| NetblockFetch.Ipv4BlocksMembers | mmv1/third_party/terraform/services/resourcemanager/data_source_google_netblock_ip_ranges.go:260-262 | a text is in the IPv4 list iff it is nonempty and some entry has it as its IPv4 field |
| NetblockFetch.Ipv6BlocksMembers | mmv1/third_party/terraform/services/resourcemanager/data_source_google_netblock_ip_ranges.go:263-265 | a text is in the IPv6 list iff it is nonempty and some entry with an empty IPv4 field has it as its IPv6 field |
| NetblockFetch.CombinedIsUnion | mmv1/third_party/terraform/services/resourcemanager/data_source_google_netblock_ip_ranges.go:258-268 | the combined list has exactly the elements, with multiplicity, of the IPv4 and IPv6 lists together |
| NetblockFetch.CombinedInterleaves | mmv1/third_party/terraform/services/resourcemanager/data_source_google_netblock_ip_ranges.go:258-268 | the combined list merges the two family lists and keeps the document order of each |
| NetblockFetch.PartitionConcat | mmv1/third_party/terraform/services/resourcemanager/data_source_google_netblock_ip_ranges.go:258-268 | partitioning two entry lists one after the other gives each list's partition one after the other |
| NetblockFetch.DualEntryGoesToIpv4 | mmv1/third_party/terraform/services/resourcemanager/data_source_google_netblock_ip_ranges.go:260-265 | an entry with both fields set contributes its IPv4 text to the IPv4 and combined lists and nothing to the IPv6 list |
| IpSetBuilders.IPSetBuilder.constructor | mmv1/third_party/terraform/services/resourcemanager/data_source_google_netblock_ip_ranges.go:277 | the zero builder holds the empty set |
| IpSetBuilders.IPSetBuilder.AddPrefix | mmv1/third_party/terraform/services/resourcemanager/data_source_google_netblock_ip_ranges.go:283 | afterwards the builder covers its old addresses plus every address of the prefix, with host bits ignored; the blocks stay canonical and disjoint |
| IpSetBuilders.IPSetBuilder.RemovePrefix | mmv1/third_party/terraform/services/resourcemanager/data_source_google_netblock_ip_ranges.go:291 | afterwards the builder covers its old addresses minus every address of the prefix; the blocks stay canonical and disjoint |
| IpSetBuilders.IPSetBuilder.RemoveFromEach | mmv1/third_party/terraform/services/resourcemanager/data_source_google_netblock_ip_ranges.go:291 | the loop cutting the prefix out of each block yields the specification function `RemoveAll` |
| IpSetBuilders.IPSetBuilder.IPSet | mmv1/third_party/terraform/services/resourcemanager/data_source_google_netblock_ip_ranges.go:294-297 | freezing keeps the builder's blocks, which are canonical and pairwise disjoint |
| IpSetBuilders.With | mmv1/third_party/terraform/services/resourcemanager/data_source_google_netblock_ip_ranges.go:283 | adding a prefix to a normal block list gives a normal list covering the union |
| IpSetBuilders.Without | mmv1/third_party/terraform/services/resourcemanager/data_source_google_netblock_ip_ranges.go:291 | removing a prefix from a normal block list gives a normal list covering the difference |
| IpSets.Subtract | mmv1/third_party/terraform/services/resourcemanager/data_source_google_netblock_ip_ranges.go:291 | the pieces of a block left after cutting out a prefix are canonical, disjoint, inside the block, clear of the prefix, and cover exactly the block minus the prefix |
| IpSets.RemoveAll | mmv1/third_party/terraform/services/resourcemanager/data_source_google_netblock_ip_ranges.go:291 | cutting a prefix out of every block covers exactly the old set minus the prefix and leaves nothing that overlaps it |
| IpSets.MaximalPrefixesExactly | mmv1/third_party/terraform/services/resourcemanager/data_source_google_netblock_ip_ranges.go:300 | a canonical prefix is listed iff it is covered by the set and its parent is not (the minimal prefix cover) |
| IpSets.MaximalPrefixesCover | mmv1/third_party/terraform/services/resourcemanager/data_source_google_netblock_ip_ranges.go:300 | the listed prefixes cover exactly the set |
| IpSets.MaximalPrefixes | mmv1/third_party/terraform/services/resourcemanager/data_source_google_netblock_ip_ranges.go:300 | the listed prefixes are canonical and pairwise disjoint; `MaximalPrefixesExactly` and `MaximalPrefixesCover` state which prefixes are listed |
| IpSetBuilders.IPSet.Prefixes | mmv1/third_party/terraform/services/resourcemanager/data_source_google_netblock_ip_ranges.go:300 | the listing is canonical and disjoint, holds exactly the canonical prefixes that are covered while their parent is not, and covers exactly the frozen set |
| IpSets.MaximalPrefixesOnlyCoverage | mmv1/third_party/terraform/services/resourcemanager/data_source_google_netblock_ip_ranges.go:300 | the listing depends only on the covered addresses, not on how the blocks were built |
| IpSets.MaximalPrefixesByFamily | mmv1/third_party/terraform/services/resourcemanager/data_source_google_netblock_ip_ranges.go:300 | an IPv4-only set joined with an IPv6-only set lists the IPv4 prefixes, then the IPv6 ones |
| IpSets.MaximalPrefixesOfNothing | mmv1/third_party/terraform/services/resourcemanager/data_source_google_netblock_ip_ranges.go:300 | an empty set lists no prefix |
| Prefixes.Masked | mmv1/third_party/terraform/services/resourcemanager/data_source_google_netblock_ip_ranges.go:283 | masking clears host bits: the result is canonical, has the same family and length, and contains the same addresses |
| CidrText.ParsePrefix | mmv1/third_party/terraform/services/resourcemanager/data_source_google_netblock_ip_ranges.go:279 | a parsed prefix has an address that fits its family and a length of at most the family's width |
| CidrText.Render | mmv1/third_party/terraform/services/resourcemanager/data_source_google_netblock_ip_ranges.go:301 | the text of a valid prefix parses back to that prefix (for IPv6, given lawful IPv6 text) |
| CidrText.ParsedIpv4Renders | mmv1/third_party/terraform/services/resourcemanager/data_source_google_netblock_ip_ranges.go:279 | an IPv4 prefix text that parses is the canonical text of what it parses to: no leading zeros, no other spelling |
| CidrText.Ipv4RoundTrip | mmv1/third_party/terraform/services/resourcemanager/data_source_google_netblock_ip_ranges.go:301 | every 32-bit address written as a dotted quad reads back as itself |
| CidrText.Ipv4Canonical | mmv1/third_party/terraform/services/resourcemanager/data_source_google_netblock_ip_ranges.go:279 | a dotted quad that parses is the one netip writes for its value |
| CidrText.ParseIpv4 | mmv1/third_party/terraform/services/resourcemanager/data_source_google_netblock_ip_ranges.go:279 | a parsed dotted quad is below 2^32 |
| CidrText.ParseAddr | mmv1/third_party/terraform/services/resourcemanager/data_source_google_netblock_ip_ranges.go:279 | a parsed address fits the width of the family the first '.' or ':' selects |
| CidrText.Ipv4Marker | mmv1/third_party/terraform/services/resourcemanager/data_source_google_netblock_ip_ranges.go:301 | a written IPv4 address is read as IPv4 (its first marker is '.') and holds no slash |
| CidrText.AddrRoundTrip | mmv1/third_party/terraform/services/resourcemanager/data_source_google_netblock_ip_ranges.go:301 | a written address reads back with its family and value and holds no slash |
| CidrText.Netip | mmv1/third_party/terraform/services/resourcemanager/data_source_google_netblock_ip_ranges.go:279-301 | netip's text syntax parses only valid prefixes, and with lawful IPv6 text every written prefix reads back |
| StringOrder.SortStrings | mmv1/third_party/terraform/services/resourcemanager/data_source_google_netblock_ip_ranges.go:304 | sorting keeps exactly the same strings with the same multiplicities |
| StringOrder.SortStringsIsSorted | mmv1/third_party/terraform/services/resourcemanager/data_source_google_netblock_ip_ranges.go:304 | the sorted list is in ascending code-point order |
| StringOrder.SortedUnique | mmv1/third_party/terraform/services/resourcemanager/data_source_google_netblock_ip_ranges.go:304 | two sorted permutations of the same strings are equal, so the result does not depend on the sorting algorithm |
| StringOrder.SortStringsOnlyMultiset | mmv1/third_party/terraform/services/resourcemanager/data_source_google_netblock_ip_ranges.go:304 | the sorted list depends only on which strings occur how often |
| StringOrder.SortStringsKeepsSorted | mmv1/third_party/terraform/services/resourcemanager/data_source_google_netblock_ip_ranges.go:304 | sorting an already sorted list changes nothing |
| StringOrder.TextualNotNumeric | mmv1/third_party/terraform/services/resourcemanager/data_source_google_netblock_ip_ranges.go:304 | the order is textual: "10.0.0.0/8" sorts before "9.0.0.0/8" |
| NetblockDifference.ParseAll | mmv1/third_party/terraform/services/resourcemanager/data_source_google_netblock_ip_ranges.go:278-282 | a list parses iff every text parses, and then parses element by element into valid prefixes |
| NetblockDifference.AddAll | mmv1/third_party/terraform/services/resourcemanager/data_source_google_netblock_ip_ranges.go:278-284 | adding the prefixes in turn keeps the blocks normal and covers the old set plus every prefix |
| NetblockDifference.RemoveEach | mmv1/third_party/terraform/services/resourcemanager/data_source_google_netblock_ip_ranges.go:286-292 | removing the prefixes in turn keeps the blocks normal and covers the old set minus every prefix |
| NetblockDifference.Build | mmv1/third_party/terraform/services/resourcemanager/data_source_google_netblock_ip_ranges.go:277-292 | the builder for one key covers exactly the reference addresses that no excluded prefix contains |
| NetblockDifference.RenderAll | mmv1/third_party/terraform/services/resourcemanager/data_source_google_netblock_ip_ranges.go:299-302 | the texts are the written prefixes, one for one and in order |
| NetblockDifference.BlockDifference | mmv1/third_party/terraform/services/resourcemanager/data_source_google_netblock_ip_ranges.go:277-306 | one key fails, with the parse error, exactly when a reference or excluded text does not parse |
| NetblockDifference.CidrsDifference | mmv1/third_party/terraform/services/resourcemanager/data_source_google_netblock_ip_ranges.go:273-310 | the whole map fails, with the parse error, exactly when some text read does not parse; otherwise it has exactly the reference keys |
| NetblockDifference.CidrsDifferenceAt | mmv1/third_party/terraform/services/resourcemanager/data_source_google_netblock_ip_ranges.go:306 | each key of the result holds that key's difference |
| NetblockDifference.GetCidrsDifference | mmv1/third_party/terraform/services/resourcemanager/data_source_google_netblock_ip_ranges.go:273-310 | the loop over the keys, in any visiting order, returns exactly `CidrsDifference` |
| NetblockDifference.DifferenceOfBlock | mmv1/third_party/terraform/services/resourcemanager/data_source_google_netblock_ip_ranges.go:277-306 | the body for one key (builder, both inner loops, freeze, listing, sort) returns exactly `BlockDifference` |
| NetblockDifference.AddTexts | mmv1/third_party/terraform/services/resourcemanager/data_source_google_netblock_ip_ranges.go:278-284 | succeeds iff every text parses, and then the builder has added each parsed prefix in turn |
| NetblockDifference.RemoveTexts | mmv1/third_party/terraform/services/resourcemanager/data_source_google_netblock_ip_ranges.go:286-292 | succeeds iff every text parses, and then the builder has removed each parsed prefix in turn |
| NetblockDifference.WriteAll | mmv1/third_party/terraform/services/resourcemanager/data_source_google_netblock_ip_ranges.go:299-302 | the loop appending each prefix's text yields `RenderAll` |
| NetblockDifference.KeyFails | mmv1/third_party/terraform/services/resourcemanager/data_source_google_netblock_ip_ranges.go:280-290 | if any key's lists fail to parse, the whole map fails with the parse error, whichever key is visited first |
| NetblockDifference.DifferenceOfAll | mmv1/third_party/terraform/services/resourcemanager/data_source_google_netblock_ip_ranges.go:276-309 | a map holding every reference key's successful result is the whole result |
| NetblockDifference.BlockDifferenceOfNothing | mmv1/third_party/terraform/services/resourcemanager/data_source_google_netblock_ip_ranges.go:286-306 | an empty reference list gives an empty result, whatever parseable texts are excluded (the excluded list is still parsed) |
| NetblockDifference.ParseAllCovers | mmv1/third_party/terraform/services/resourcemanager/data_source_google_netblock_ip_ranges.go:278-282 | the parsed prefixes cover an address iff some text of the list parses to a prefix containing it |
| NetblockDifference.BuildMeans | mmv1/third_party/terraform/services/resourcemanager/data_source_google_netblock_ip_ranges.go:277-292 | the builder's blocks cover exactly the addresses in the reference texts and in no excluded text |
| NetblockDifference.RenderedTextsParse | mmv1/third_party/terraform/services/resourcemanager/data_source_google_netblock_ip_ranges.go:299-304 | the sorted texts all parse, and back to exactly the listed prefixes |
| NetblockDifference.MaximalListing | mmv1/third_party/terraform/services/resourcemanager/data_source_google_netblock_ip_ranges.go:300 | any list with the members of the maximal prefixes is canonical, disjoint, covers the set, and holds exactly its maximal prefixes |
| NetblockDifference.BlockDifferenceMeans | mmv1/third_party/terraform/services/resourcemanager/data_source_google_netblock_ip_ranges.go:277-306 | one key's output is sorted, parses, and lists canonical disjoint prefixes that cover exactly reference minus excluded, each of them maximal |
| NetblockDifference.TextsOfFamilyParse | mmv1/third_party/terraform/services/resourcemanager/data_source_google_netblock_ip_ranges.go:279 | texts of one family parse and cover only addresses of that family |
| NetblockDifference.FamilyBuild | mmv1/third_party/terraform/services/resourcemanager/data_source_google_netblock_ip_ranges.go:277-292 | a builder fed texts of one family covers only addresses of that family |
| NetblockDifference.DifferenceByFamily | mmv1/third_party/terraform/services/resourcemanager/data_source_google_netblock_ip_ranges.go:277-292 | the difference of the mixed lists is the union of the IPv4 and IPv6 differences |
| NetblockDifference.BlockDifferenceByFamily | mmv1/third_party/terraform/services/resourcemanager/data_source_google_netblock_ip_ranges.go:277-306 | the mixed key's result is the sorted union of the IPv4 key's and the IPv6 key's results |
| NetblockResolver.RangeTypeNamed | mmv1/third_party/terraform/services/resourcemanager/data_source_google_netblock_ip_ranges.go:65-229 | a recognised value is the name of the range type it selects; an unrecognised one names no range type |
| NetblockResolver.NamesSelect | mmv1/third_party/terraform/services/resourcemanager/data_source_google_netblock_ip_ranges.go:65-229 | each range type's name selects that range type, so the eleven names are distinct |
| NetblockResolver.Read | mmv1/third_party/terraform/services/resourcemanager/data_source_google_netblock_ip_ranges.go:65-226 | a known range type never fails as unknown |
| NetblockResolver.Resolve | mmv1/third_party/terraform/services/resourcemanager/data_source_google_netblock_ip_ranges.go:65-231 | a successful read records the id "netblock-ip-ranges-" followed by the range type |
| NetblockResolver.UnknownExactly | mmv1/third_party/terraform/services/resourcemanager/data_source_google_netblock_ip_ranges.go:227-228 | the read fails as an unknown range type iff no range type has that name |
| NetblockResolver.ResolveNamed | mmv1/third_party/terraform/services/resourcemanager/data_source_google_netblock_ip_ranges.go:65-231 | a named range type reports its case's error, or publishes its case's lists with the id of its name |
| NetblockResolver.StaticIgnoresFetch | mmv1/third_party/terraform/services/resourcemanager/data_source_google_netblock_ip_ranges.go:124-226 | the fixed range types always succeed and do not depend on the fetcher or the IPv6 text |
| NetblockResolver.StaticLists | mmv1/third_party/terraform/services/resourcemanager/data_source_google_netblock_ip_ranges.go:124-226 | the fixed lists are the nonempty literal tables; an IPv6 list is published iff the type is dual-stack; the combined list is the IPv4 list followed by the IPv6 one |
| NetblockResolver.StaticIpv4 | mmv1/third_party/terraform/services/resourcemanager/data_source_google_netblock_ip_ranges.go:124-222 | the literal IPv4 tables: every fixed range type has a nonempty one and no document range type has one |
| NetblockResolver.StaticIpv6 | mmv1/third_party/terraform/services/resourcemanager/data_source_google_netblock_ip_ranges.go:124-176 | the literal IPv6 tables: exactly the four dual-stack range types have a nonempty one |
| NetblockResolver.RestrictedLiterals | mmv1/third_party/terraform/services/resourcemanager/data_source_google_netblock_ip_ranges.go:124-138 | `restricted-googleapis` publishes its two literals verbatim, leading zeros included, and its id |
| NetblockResolver.PassThrough | mmv1/third_party/terraform/services/resourcemanager/data_source_google_netblock_ip_ranges.go:67-98 | `cloud-netblocks` and `google-netblocks` report the fetch failure (naming the URL only when the request failed), or publish the document's combined, IPv4 and IPv6 lists |
| NetblockResolver.Published | mmv1/third_party/terraform/services/resourcemanager/data_source_google_netblock_ip_ranges.go:74-81 | the three attributes get the map's lists, an absent key giving the empty list; `PassThrough` and `DefaultDomainsRead` state what the map is |
| NetblockResolver.ReadsOnlyItsDocuments | mmv1/third_party/terraform/services/resourcemanager/data_source_google_netblock_ip_ranges.go:65-122 | a read depends on the fetcher only through the documents its range type fetches |
| NetblockResolver.DefaultDomainsErrors | mmv1/third_party/terraform/services/resourcemanager/data_source_google_netblock_ip_ranges.go:99-112 | the Google fetch error comes first, then the Cloud one; with both fetched, the read fails iff some text it reads does not parse |
| NetblockResolver.DefaultDomainsRead | mmv1/third_party/terraform/services/resourcemanager/data_source_google_netblock_ip_ranges.go:99-122 | a successful default-domains read has parsed every text it reads and publishes the difference of the Google map and the Cloud map |
| NetblockResolver.DefaultDomainsKey | mmv1/third_party/terraform/services/resourcemanager/data_source_google_netblock_ip_ranges.go:109-122 | a list the Google document lacks is published empty, and the Cloud list under that key is not read; otherwise it is the difference of the two lists |
| NetblockResolver.DefaultDomainsLists | mmv1/third_party/terraform/services/resourcemanager/data_source_google_netblock_ip_ranges.go:99-122 | each of the three published lists is the difference of the two documents' lists of that kind, and the IPv6 list is always published |
| NetblockResolver.DifferenceListedMeans | mmv1/third_party/terraform/services/resourcemanager/data_source_google_netblock_ip_ranges.go:109-122 | a published default-domains list is sorted, parses, and lists disjoint canonical prefixes covering exactly the Google addresses outside the Cloud list |
| NetblockResolver.DefaultDomainsCombined | mmv1/third_party/terraform/services/resourcemanager/data_source_google_netblock_ip_ranges.go:109-114 | when each document's fields hold prefixes of their own family, the combined list is the sorted union of the IPv4 and IPv6 lists |
| NetblockResolver.CombinedMembers | mmv1/third_party/terraform/services/resourcemanager/data_source_google_netblock_ip_ranges.go:258-268 | a text is in the combined list iff it is in the IPv4 or the IPv6 list |

## Left out

- HTTP, reading the body and JSON decoding are the caller's `Fetcher`. Their three failures are the constructors of `FetchFailure`. Closing the response body (Go line 245) is not modelled, and neither are redirects and timeouts.
- The schema definition is not modelled (`DataSourceGoogleNetblockIpRanges`, including the default `range_type` of "cloud-netblocks"). `Resolve` takes the `range_type` value after the default has been applied.
- The failures of `d.Set` are not modelled. The model assumes every attribute write succeeds.
- Error messages are constructors of `Error`, not formatted strings. `RequestError` keeps the URL because the error text of `http.Get` contains it (Go line 242); the read and decode messages (Go lines 249 and 255) do not.
- `CidrsDifference`: which text's error is reported depends on Go's map iteration order. The model reports every parse failure as the single error `InvalidPrefix`. It does not model the partial map returned beside the error, which the caller discards.
- `IpSetBuilders.IPSetBuilder.IPSet`: the error that netipx returns after an invalid prefix was added is not modelled. Invalid prefixes never reach the builder, because a text that does not parse ends the read first.
- `IpSets.MaximalPrefixes`: the model defines netipx's listing by what it yields, the set's maximal canonical prefixes in address order. It does not model netipx's internal range merging.
- IPv6 address text is a parameter (`CidrText.Ipv6Text`), so the IPv6 lemmas hold for any codec that meets `CidrText.Lawful`. netip's IPv6 grammar is not part of this model: zones, embedded IPv4 and `::` compression. The IPv4 grammar is modelled in full.
- A nil Go list and an empty list are both the empty sequence. An absent IPv6 attribute (the IPv4-only fixed types) is `None`.
- `StringOrder.SortStrings`: compares code points. For UTF-8 text this is Go's byte order, and prefix texts are ASCII.

