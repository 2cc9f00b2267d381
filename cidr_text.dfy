/**
 * Text forms of prefixes, as `netip.ParsePrefix` reads them and
 * `netip.Prefix.String` writes them. IPv4 addresses are dotted quads of
 * decimal octets without leading zeros (section 3.1 of RFC 4632 for the
 * "address/length" notation). IPv6 address text (section 2.2 of RFC 4291 for
 * the accepted forms, section 4 of RFC 5952 for the canonical output) is a
 * parameter of the model: an `Ipv6Text` whose laws are stated by `Lawful`.
 */
module CidrText {
  import opened Wrappers
  import opened Bits
  import opened Prefixes

  // ---------------------------------------------------------------------------
  // Decimal numbers

  predicate IsDigit(c: char) {
    '0' <= c <= '9'
  }

  function DigitChar(d: nat): (c: char)
    requires d < 10
    ensures IsDigit(c) && DigitValue(c) == d
  {
    ('0' as int + d) as char
  }

  function DigitValue(c: char): nat
    requires IsDigit(c)
  {
    c as int - '0' as int
  }

  predicate AllDigits(s: string) {
    forall i :: 0 <= i < |s| ==> IsDigit(s[i])
  }

  /** The shortest decimal text of `n`. */
  function DecimalText(n: nat): (s: string)
    ensures |s| >= 1 && AllDigits(s)
    ensures s[0] == '0' <==> n == 0
  {
    if n < 10 then [DigitChar(n)] else DecimalText(n / 10) + [DigitChar(n % 10)]
  }

  /** The value of a string of digits. */
  function DigitsValue(s: string): nat
    requires AllDigits(s)
  {
    if s == [] then 0 else DigitsValue(s[..|s| - 1]) * 10 + DigitValue(s[|s| - 1])
  }

  /**
   * Decimal text without sign and without leading zeros: what netip accepts
   * both for an IPv4 octet and for the length after the slash.
   */
  predicate IsDecimal(s: string) {
    |s| >= 1 && AllDigits(s) && (|s| > 1 ==> s[0] != '0')
  }

  function ParseDecimal(s: string): Option<nat> {
    if IsDecimal(s) then Some(DigitsValue(s)) else None
  }

  lemma {:induction false} DecimalTextValue(n: nat)
    ensures DigitsValue(DecimalText(n)) == n
  {
    if n >= 10 {
      var s := DecimalText(n);
      DecimalTextValue(n / 10);
      assert s[..|s| - 1] == DecimalText(n / 10);
    }
  }

  /** Decimal text is the only text that parses: DecimalText inverts ParseDecimal. */
  lemma ParseDecimalRoundTrip(n: nat)
    ensures ParseDecimal(DecimalText(n)) == Some(n)
  {
    DecimalTextValue(n);
  }

  lemma {:induction false} LeadingDigitValue(s: string)
    requires AllDigits(s) && |s| >= 1 && s[0] != '0'
    ensures DigitsValue(s) >= 1
  {
    if |s| > 1 {
      LeadingDigitValue(s[..|s| - 1]);
    }
  }

  lemma {:induction false} DecimalTextOfValue(s: string)
    requires IsDecimal(s)
    ensures DecimalText(DigitsValue(s)) == s
  {
    if |s| > 1 {
      var init := s[..|s| - 1];
      assert IsDecimal(init);
      DecimalTextOfValue(init);
      LeadingDigitValue(init);
      var v := DigitsValue(s);
      DivModUnique(v, 10, DigitsValue(init), DigitValue(s[|s| - 1]));
      assert s == init + [s[|s| - 1]];
    }
  }

  /** Every text ParseDecimal accepts is the shortest decimal text of its value. */
  lemma ParseDecimalCanonical(s: string, n: nat)
    requires ParseDecimal(s) == Some(n)
    ensures DecimalText(n) == s
  {
    DecimalTextOfValue(s);
  }

  // ---------------------------------------------------------------------------
  // Splitting on a separator

  /** The fields of `s` between occurrences of `c`; an empty text has one empty field. */
  function Split(s: string, c: char): (r: seq<string>)
    ensures |r| >= 1
  {
    if |s| == 0 then [""]
    else
      var rest := Split(s[1..], c);
      if s[0] == c then [""] + rest else [[s[0]] + rest[0]] + rest[1..]
  }

  /** The fields joined with `c` between consecutive ones. */
  function Join(fs: seq<string>, c: char): string
    requires |fs| >= 1
  {
    if |fs| == 1 then fs[0] else fs[0] + [c] + Join(fs[1..], c)
  }

  lemma {:induction false} SplitWithout(x: string, c: char)
    requires c !in x
    ensures Split(x, c) == [x]
  {
    if |x| > 0 {
      SplitWithout(x[1..], c);
      assert x == [x[0]] + x[1..];
    }
  }

  lemma {:induction false} SplitFirst(x: string, y: string, c: char)
    requires c !in x
    ensures Split(x + [c] + y, c) == [x] + Split(y, c)
  {
    if |x| == 0 {
      assert x + [c] + y == [c] + y;
      assert ([c] + y)[1..] == y;
    } else {
      assert (x + [c] + y)[1..] == x[1..] + [c] + y;
      SplitFirst(x[1..], y, c);
      assert x == [x[0]] + x[1..];
    }
  }

  /** Splitting joined fields that do not contain the separator gives them back. */
  lemma {:induction false} SplitJoin(fs: seq<string>, c: char)
    requires |fs| >= 1 && forall i :: 0 <= i < |fs| ==> c !in fs[i]
    ensures Split(Join(fs, c), c) == fs
  {
    if |fs| == 1 {
      SplitWithout(fs[0], c);
    } else {
      SplitJoin(fs[1..], c);
      SplitFirst(fs[0], Join(fs[1..], c), c);
      assert fs == [fs[0]] + fs[1..];
    }
  }

  /** Joining the fields of a text gives the text back. */
  lemma {:induction false} JoinSplit(s: string, c: char)
    ensures Join(Split(s, c), c) == s
  {
    if |s| > 0 {
      var rest := Split(s[1..], c);
      JoinSplit(s[1..], c);
      if s[0] == c {
        assert Split(s, c) == [""] + rest;
        assert ([""] + rest)[1..] == rest;
        assert s == [c] + s[1..];
      } else if |rest| == 1 {
        assert s == [s[0]] + s[1..];
      } else {
        var fs := Split(s, c);
        assert fs[1..] == rest[1..];
        assert Join(rest, c) == rest[0] + [c] + Join(rest[1..], c);
        assert s == [s[0]] + s[1..];
      }
    }
  }

  // ---------------------------------------------------------------------------
  // IPv4 addresses

  lemma Pow2Of32()
    ensures Pow2(32) == 4294967296
  {
    assert Pow2(8) == 256 by {
      assert Pow2(1) == 2;
      assert Pow2(2) == 4;
      assert Pow2(3) == 8;
      assert Pow2(4) == 16;
      assert Pow2(5) == 32;
      assert Pow2(6) == 64;
      assert Pow2(7) == 128;
    }
    Pow2Add(8, 8);
    Pow2Add(16, 16);
  }

  /** The four octets of a 32-bit address, most significant first. */
  function Octets(x: nat): (os: seq<nat>)
    requires x < Pow2(32)
    ensures |os| == 4 && forall i :: 0 <= i < 4 ==> os[i] < 256
  {
    Pow2Of32();
    [x / 256 / 256 / 256, x / 256 / 256 % 256, x / 256 % 256, x % 256]
  }

  /** The address whose octets are `a.b.c.d`. */
  function OctetsValue(a: nat, b: nat, c: nat, d: nat): nat {
    ((a * 256 + b) * 256 + c) * 256 + d
  }

  lemma OctetsValueOfOctets(x: nat)
    requires x < Pow2(32)
    ensures var os := Octets(x); OctetsValue(os[0], os[1], os[2], os[3]) == x
  {
  }

  lemma OctetsOfOctetsValue(a: nat, b: nat, c: nat, d: nat)
    requires a < 256 && b < 256 && c < 256 && d < 256
    ensures OctetsValue(a, b, c, d) < Pow2(32)
    ensures Octets(OctetsValue(a, b, c, d)) == [a, b, c, d]
  {
    Pow2Of32();
    var v := OctetsValue(a, b, c, d);
    DivModUnique(v, 256, (a * 256 + b) * 256 + c, d);
    DivModUnique((a * 256 + b) * 256 + c, 256, a * 256 + b, c);
    DivModUnique(a * 256 + b, 256, a, b);
    DivModUnique(a, 256, 0, a);
  }

  /** The dotted-quad text of a 32-bit address. */
  function RenderIpv4(x: nat): string
    requires x < Pow2(32)
  {
    var os := Octets(x);
    Join([DecimalText(os[0]), DecimalText(os[1]), DecimalText(os[2]), DecimalText(os[3])], '.')
  }

  /** An octet: decimal without leading zeros, at most 255. */
  function ParseOctet(f: string): Option<nat> {
    match ParseDecimal(f)
    case Some(v) => if v <= 255 then Some(v) else None
    case None => None
  }

  /** Exactly four dot-separated octets. */
  function ParseIpv4(s: string): (r: Option<nat>)
    ensures r.Some? ==> r.value < Pow2(32)
  {
    var fs := Split(s, '.');
    if |fs| != 4 then None
    else
      match (ParseOctet(fs[0]), ParseOctet(fs[1]), ParseOctet(fs[2]), ParseOctet(fs[3]))
      case (Some(a), Some(b), Some(c), Some(d)) =>
        OctetsOfOctetsValue(a, b, c, d);
        Some(OctetsValue(a, b, c, d))
      case _ => None
  }

  lemma DecimalTextHasNo(n: nat, c: char)
    requires !IsDigit(c)
    ensures c !in DecimalText(n)
  {
  }

  /** Four fields that read as octets make the address they spell. */
  lemma ParseIpv4Fields(s: string, fs: seq<string>, os: seq<nat>)
    requires |fs| == 4 && |os| == 4 && Split(s, '.') == fs
    requires forall i :: 0 <= i < 4 ==> ParseOctet(fs[i]) == Some(os[i])
    ensures ParseIpv4(s) == Some(OctetsValue(os[0], os[1], os[2], os[3]))
  {
    assert ParseOctet(fs[0]) == Some(os[0]) && ParseOctet(fs[1]) == Some(os[1]);
    assert ParseOctet(fs[2]) == Some(os[2]) && ParseOctet(fs[3]) == Some(os[3]);
  }

  /** What ParseIpv4 accepts is four fields that read as the octets of the result. */
  lemma ParsedIpv4Fields(s: string, x: nat)
    requires ParseIpv4(s) == Some(x)
    ensures |Split(s, '.')| == 4
    ensures forall i :: 0 <= i < 4 ==> ParseOctet(Split(s, '.')[i]).Some?
    ensures var fs := Split(s, '.');
      x == OctetsValue(ParseOctet(fs[0]).value, ParseOctet(fs[1]).value, ParseOctet(fs[2]).value, ParseOctet(fs[3]).value)
  {
    var fs := Split(s, '.');
    assert ParseOctet(fs[0]).Some? && ParseOctet(fs[1]).Some? && ParseOctet(fs[2]).Some? && ParseOctet(fs[3]).Some?;
  }

  lemma FourElements<T>(s: seq<T>)
    requires |s| == 4
    ensures s == [s[0], s[1], s[2], s[3]]
  {
  }

  /** An octet's decimal text has no dot and reads back as the octet. */
  lemma OctetText(o: nat)
    requires o < 256
    ensures '.' !in DecimalText(o) && ParseOctet(DecimalText(o)) == Some(o)
  {
    DecimalTextHasNo(o, '.');
    ParseDecimalRoundTrip(o);
  }

  /** Dotted-quad text parses back to its address. */
  lemma Ipv4RoundTrip(x: nat)
    requires x < Pow2(32)
    ensures ParseIpv4(RenderIpv4(x)) == Some(x)
  {
    var os := Octets(x);
    var t0, t1, t2, t3 := DecimalText(os[0]), DecimalText(os[1]), DecimalText(os[2]), DecimalText(os[3]);
    OctetText(os[0]);
    OctetText(os[1]);
    OctetText(os[2]);
    OctetText(os[3]);
    DottedQuadReads(t0, t1, t2, t3, os[0], os[1], os[2], os[3]);
    OctetsValueOfOctets(x);
  }

  /** Four octet texts joined with dots read as the address of those octets. */
  lemma DottedQuadReads(t0: string, t1: string, t2: string, t3: string, o0: nat, o1: nat, o2: nat, o3: nat)
    requires '.' !in t0 && '.' !in t1 && '.' !in t2 && '.' !in t3
    requires ParseOctet(t0) == Some(o0) && ParseOctet(t1) == Some(o1)
    requires ParseOctet(t2) == Some(o2) && ParseOctet(t3) == Some(o3)
    ensures ParseIpv4(Join([t0, t1, t2, t3], '.')) == Some(OctetsValue(o0, o1, o2, o3))
  {
    var fs := [t0, t1, t2, t3];
    SplitJoin(fs, '.');
    ParseIpv4Fields(Join(fs, '.'), fs, [o0, o1, o2, o3]);
  }

  /** Any text ParseIpv4 accepts is the dotted-quad text of its address. */
  lemma Ipv4Canonical(s: string, x: nat)
    requires ParseIpv4(s) == Some(x)
    ensures RenderIpv4(x) == s
  {
    ParsedIpv4Fields(s, x);
    var fs := Split(s, '.');
    var a, b, c, d := ParseOctet(fs[0]).value, ParseOctet(fs[1]).value, ParseOctet(fs[2]).value, ParseOctet(fs[3]).value;
    OctetsOfOctetsValue(a, b, c, d);
    ParseDecimalCanonical(fs[0], a);
    ParseDecimalCanonical(fs[1], b);
    ParseDecimalCanonical(fs[2], c);
    ParseDecimalCanonical(fs[3], d);
    JoinSplit(s, '.');
    FourElements(fs);
    assert RenderIpv4(x) == Join([DecimalText(a), DecimalText(b), DecimalText(c), DecimalText(d)], '.');
  }

  // ---------------------------------------------------------------------------
  // IPv6 address text, as a parameter

  /** A 128-bit number. */
  type Ipv6Bits = x: nat | x < Pow2(128)

  /** How IPv6 addresses are read and written (RFC 4291 and RFC 5952 forms). */
  datatype Ipv6Text = Ipv6Text(parse: string -> Option<Ipv6Bits>, render: Ipv6Bits -> string)

  /** The first character of `s` that decides how netip reads an address. */
  function FirstMarker(s: string): (r: Option<char>)
    ensures r.Some? ==> r.value in s && r.value in ".:%"
  {
    if |s| == 0 then None
    else if s[0] in ".:%" then Some(s[0])
    else FirstMarker(s[1..])
  }

  /**
   * The laws assumed of IPv6 text: what is written reads back, contains no
   * slash, and is recognised as IPv6 (a colon before any dot).
   */
  ghost predicate Lawful(t: Ipv6Text) {
    forall x: Ipv6Bits :: t.parse(t.render(x)) == Some(x) && '/' !in t.render(x) && FirstMarker(t.render(x)) == Some(':')
  }

  // ---------------------------------------------------------------------------
  // Prefixes

  /** The position of the last `c` in `s`. */
  function LastIndexOf(s: string, c: char): (r: Option<nat>)
    ensures r.Some? ==> r.value < |s| && s[r.value] == c && c !in s[r.value + 1..]
    ensures r.None? ==> c !in s
  {
    if |s| == 0 then None
    else if s[|s| - 1] == c then Some(|s| - 1)
    else
      var r := LastIndexOf(s[..|s| - 1], c);
      assert s == s[..|s| - 1] + [s[|s| - 1]];
      r
  }

  /** An address, its family chosen by the first '.' or ':' as netip.ParseAddr does. */
  function ParseAddr(s: string, t: Ipv6Text): (r: Option<(Family, nat)>)
    ensures r.Some? ==> r.value.1 < Pow2(Width(r.value.0))
  {
    match FirstMarker(s)
    case Some(m) =>
      if m == '.' then
        match ParseIpv4(s)
        case Some(x) => Some((V4, x))
        case None => None
      else if m == ':' then
        match t.parse(s)
        case Some(x) => Some((V6, x as nat))
        case None => None
      else None
    case None => None
  }

  /**
   * `netip.ParsePrefix`: an address, a slash (the last one), and a length
   * written in decimal without sign or leading zeros, at most the address width.
   * Host bits are kept as written.
   */
  function ParsePrefix(s: string, t: Ipv6Text): (r: Option<Prefix>)
    ensures r.Some? ==> Valid(r.value)
  {
    match LastIndexOf(s, '/')
    case None => None
    case Some(i) => PrefixOfParts(ParseAddr(s[..i], t), ParseDecimal(s[i + 1..]))
  }

  /** A parsed address and a parsed length make a prefix when the length fits the family. */
  function PrefixOfParts(addr: Option<(Family, nat)>, bits: Option<nat>): (r: Option<Prefix>)
    requires addr.Some? ==> addr.value.1 < Pow2(Width(addr.value.0))
    ensures r.Some? ==> Valid(r.value)
  {
    match (addr, bits)
    case (Some((f, x)), Some(n)) => if n <= Width(f) then Some(Prefix(f, x, n)) else None
    case _ => None
  }

  /**
   * `netip.Prefix.String`: the address text, a slash and the length in
   * decimal. The text reads back as the same prefix (IPv6 given lawful
   * address text).
   */
  function Render(p: Prefix, t: Ipv6Text): (r: string)
    requires Valid(p)
    ensures (p.family == V6 ==> Lawful(t)) ==> ParsePrefix(r, t) == Some(p)
  {
    var a := if p.family == V4 then RenderIpv4(p.addr) else t.render(p.addr);
    var d := DecimalText(p.len);
    assert (p.family == V6 ==> Lawful(t)) ==> ParsePrefix(a + ['/'] + d, t) == Some(p) by {
      if p.family == V6 ==> Lawful(t) {
        AddrRoundTrip(p, t);
        DecimalTextHasNo(p.len, '/');
        ParseDecimalRoundTrip(p.len);
        PrefixTextParses(a, d, t, p);
      }
    }
    a + ['/'] + d
  }
  // ---------------------------------------------------------------------------
  // Round trips

  lemma {:induction false} LastIndexAfter(x: string, y: string, c: char)
    requires c !in y
    ensures LastIndexOf(x + [c] + y, c) == Some(|x|)
  {
    var s := x + [c] + y;
    if |y| > 0 {
      assert s[..|s| - 1] == x + [c] + y[..|y| - 1];
      LastIndexAfter(x, y[..|y| - 1], c);
    }
  }

  lemma {:induction false} FirstMarkerSkip(x: string, y: string)
    requires forall i :: 0 <= i < |x| ==> x[i] !in ".:%"
    ensures FirstMarker(x + y) == FirstMarker(y)
  {
    if |x| > 0 {
      assert (x + y)[1..] == x[1..] + y;
      FirstMarkerSkip(x[1..], y);
    } else {
      assert x + y == y;
    }
  }

  lemma Join4(a: string, b: string, c: string, d: string, sep: char)
    ensures Join([a, b, c, d], sep) == a + ([sep] + (b + ([sep] + (c + ([sep] + d)))))
  {
    assert [a, b, c, d][1..] == [b, c, d];
    assert [b, c, d][1..] == [c, d];
    assert [c, d][1..] == [d];
    var j3 := Join([d], sep);
    assert j3 == d;
    var j2 := Join([c, d], sep);
    assert j2 == c + [sep] + j3;
    assert j2 == c + ([sep] + d);
    var j1 := Join([b, c, d], sep);
    assert j1 == b + [sep] + j2;
    assert j1 == b + ([sep] + (c + ([sep] + d)));
    assert Join([a, b, c, d], sep) == a + [sep] + j1;
  }

  lemma NoMarkers(n: nat)
    ensures forall i :: 0 <= i < |DecimalText(n)| ==> DecimalText(n)[i] !in ".:%"
  {
  }

  /** Dotted-quad text is read as IPv4 and contains no slash. */
  lemma Ipv4Marker(x: nat)
    requires x < Pow2(32)
    ensures FirstMarker(RenderIpv4(x)) == Some('.')
    ensures '/' !in RenderIpv4(x)
  {
    var os := Octets(x);
    NoMarkers(os[0]);
    DecimalTextHasNo(os[0], '/');
    DecimalTextHasNo(os[1], '/');
    DecimalTextHasNo(os[2], '/');
    DecimalTextHasNo(os[3], '/');
    DottedQuadMarker(DecimalText(os[0]), DecimalText(os[1]), DecimalText(os[2]), DecimalText(os[3]));
  }

  /** Four fields joined with dots, the first without markers: the first marker is a dot. */
  lemma DottedQuadMarker(t0: string, t1: string, t2: string, t3: string)
    requires forall i :: 0 <= i < |t0| ==> t0[i] !in ".:%"
    requires '/' !in t0 && '/' !in t1 && '/' !in t2 && '/' !in t3
    ensures FirstMarker(Join([t0, t1, t2, t3], '.')) == Some('.')
    ensures '/' !in Join([t0, t1, t2, t3], '.')
  {
    var rest := ['.'] + (t1 + (['.'] + (t2 + (['.'] + t3))));
    Join4(t0, t1, t2, t3, '.');
    FirstMarkerSkip(t0, rest);
    assert FirstMarker(rest) == Some('.');
  }

  /** Written address text reads back as the same family and address. */
  lemma AddrRoundTrip(p: Prefix, t: Ipv6Text)
    requires Valid(p) && (p.family == V6 ==> Lawful(t))
    ensures var a := if p.family == V4 then RenderIpv4(p.addr) else t.render(p.addr);
      ParseAddr(a, t) == Some((p.family, p.addr)) && '/' !in a
  {
    if p.family == V4 {
      Ipv4Marker(p.addr);
      Ipv4RoundTrip(p.addr);
    } else {
      var x: Ipv6Bits := p.addr;
      assert t.parse(t.render(x)) == Some(x) && '/' !in t.render(x) && FirstMarker(t.render(x)) == Some(':');
    }
  }

  /** Text with no slash after its last slash splits there. */
  lemma ParsePrefixAt(a: string, d: string, t: Ipv6Text)
    requires '/' !in d
    ensures ParsePrefix(a + ['/'] + d, t) == PrefixOfParts(ParseAddr(a, t), ParseDecimal(d))
  {
    var s := a + ['/'] + d;
    LastIndexAfter(a, d, '/');
    assert s[..|a|] == a && s[|a| + 1..] == d;
  }

  /** An address text, a slash and a length text read back as the prefix they spell. */
  lemma PrefixTextParses(a: string, d: string, t: Ipv6Text, p: Prefix)
    requires Valid(p) && ParseAddr(a, t) == Some((p.family, p.addr))
    requires '/' !in d && ParseDecimal(d) == Some(p.len)
    ensures ParsePrefix(a + ['/'] + d, t) == Some(p)
  {
    ParsePrefixAt(a, d, t);
  }

  lemma PrefixOfPartsInverse(addr: Option<(Family, nat)>, bits: Option<nat>, p: Prefix)
    requires addr.Some? ==> addr.value.1 < Pow2(Width(addr.value.0))
    requires PrefixOfParts(addr, bits) == Some(p)
    ensures addr == Some((p.family, p.addr)) && bits == Some(p.len)
  {
  }

  lemma ParseAddrIpv4(a: string, t: Ipv6Text, x: nat)
    requires ParseAddr(a, t) == Some((V4, x))
    ensures ParseIpv4(a) == Some(x)
  {
  }

  lemma SplitAt(s: string, i: nat)
    requires i < |s|
    ensures s == s[..i] + [s[i]] + s[i + 1..]
  {
  }

  /** IPv4 prefix text is read only in its written form: what parses is what Render writes. */
  lemma ParsedIpv4Renders(s: string, t: Ipv6Text, p: Prefix)
    requires ParsePrefix(s, t) == Some(p) && p.family == V4
    ensures Render(p, t) == s
  {
    var i := LastIndexOf(s, '/').value;
    var a, d := s[..i], s[i + 1..];
    assert PrefixOfParts(ParseAddr(a, t), ParseDecimal(d)) == Some(p);
    PrefixOfPartsInverse(ParseAddr(a, t), ParseDecimal(d), p);
    ParseAddrIpv4(a, t, p.addr);
    Ipv4Canonical(a, p.addr);
    ParseDecimalCanonical(d, p.len);
    assert Render(p, t) == a + "/" + d;
    SplitAt(s, i);
  }
  // ---------------------------------------------------------------------------
  // The prefix text functions as a value

  /** Reading and writing prefix text. */
  datatype PrefixSyntax = PrefixSyntax(parse: string -> Option<Prefix>, write: Prefix -> string)

  /** Whatever is read is a valid prefix. */
  ghost predicate ParsesValid(x: PrefixSyntax) {
    forall s :: x.parse(s).Some? ==> Valid(x.parse(s).value)
  }

  /** Whatever valid prefix is written reads back as itself. */
  ghost predicate ReadsBack(x: PrefixSyntax) {
    forall p :: Valid(p) ==> x.parse(x.write(p)) == Some(p)
  }

  /** `netip.ParsePrefix` and `netip.Prefix.String`. */
  function Netip(t: Ipv6Text): (x: PrefixSyntax)
    ensures ParsesValid(x)
    ensures Lawful(t) ==> ReadsBack(x)
    ensures forall s :: x.parse(s) == ParsePrefix(s, t)
    ensures forall p :: Valid(p) ==> x.write(p) == Render(p, t)
  {
    var x := PrefixSyntax(s => ParsePrefix(s, t), p => if Valid(p) then Render(p, t) else "");
    assert Lawful(t) ==> ReadsBack(x) by {
      if Lawful(t) {
        forall p | Valid(p) ensures x.parse(x.write(p)) == Some(p) {
          assert x.write(p) == Render(p, t);
        }
      }
    }
    x
  }
}
