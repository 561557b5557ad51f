/**
 * The examples of tests/test_run.py, stated as lemmas about the model. Each
 * lemma fixes the input of one assertion block of the test and proves the
 * outputs the test expects (the exact value where the test only asks for
 * membership or for some issue of a kind).
 *
 * Every example is computed from small facts about its literals; the general
 * helpers take the pieces of a literal as separate parameters.
 */
module Regression {
  import opened Wrappers
  import opened Text
  import opened Records
  import opened IPv4
  import opened IpNormalizer
  import opened Names
  import opened Mac
  import opened Device
  import opened Site

  // ---------------------------------------------------------------------------
  // Helpers over the pieces of a dotted quad

  lemma Digits3(s: string)
    requires |s| == 3 && AllDigits(s)
    ensures DigitsValue(s) == 100 * DigitValue(s[0]) + 10 * DigitValue(s[1]) + DigitValue(s[2])
  {
    var p := s[..2];
    var q := s[..1];
    assert p[..1] == q && p[1] == s[1] && s[..|s| - 1] == p;
    assert q[..0] == [] && q[0] == s[0];
    assert DigitsValue(q) == DigitValue(s[0]);
    assert DigitsValue(p) == DigitsValue(q) * 10 + DigitValue(s[1]);
  }

  lemma SplitOf4(w: string, x: string, y: string, z: string)
    requires '.' !in w && '.' !in x && '.' !in y && '.' !in z
    ensures Split(w + "." + x + "." + y + "." + z, '.') == [w, x, y, z]
  {
    Join4(w, x, y, z, ".");
    SplitJoin([w, x, y, z], '.');
  }

  lemma RelaxedOf4(s: string, w: string, x: string, y: string, z: string, a: Address4)
    requires Split(s, '.') == [w, x, y, z]
    requires RelaxedOctet(w) == Some(a[0]) && RelaxedOctet(x) == Some(a[1])
    requires RelaxedOctet(y) == Some(a[2]) && RelaxedOctet(z) == Some(a[3])
    ensures RelaxedParse(s) == Some(a)
  {
    var parts := [w, x, y, z];
    ParseOctetsIff(parts, RelaxedOctet);
    var v := ParseOctets(parts, RelaxedOctet).value;
    assert forall k :: 0 <= k < 4 ==> v[k] == a[k];
    assert v == a;
  }

  lemma RelaxedRejects4(s: string, w: string, x: string, y: string, z: string)
    requires Split(s, '.') == [w, x, y, z]
    requires RelaxedOctet(w).None? || RelaxedOctet(x).None? || RelaxedOctet(y).None? || RelaxedOctet(z).None?
    ensures RelaxedParse(s).None?
  {
    var parts := [w, x, y, z];
    assert parts[0] == w && parts[1] == x && parts[2] == y && parts[3] == z;
    ParseOctetsIff(parts, RelaxedOctet);
  }

  lemma StrictRejects4(s: string, w: string, x: string, y: string, z: string)
    requires Split(s, '.') == [w, x, y, z]
    requires StrictOctet(w).None? || StrictOctet(x).None? || StrictOctet(y).None? || StrictOctet(z).None?
    ensures ParseStrict(s).None?
  {
    var parts := [w, x, y, z];
    assert parts[0] == w && parts[1] == x && parts[2] == y && parts[3] == z;
    ParseOctetsIff(parts, StrictOctet);
  }

  lemma FormatOf(a: Address4, w: string, x: string, y: string, z: string)
    requires NatToString(a[0]) == w && NatToString(a[1]) == x && NatToString(a[2]) == y && NatToString(a[3]) == z
    ensures Format(a) == w + "." + x + "." + y + "." + z
  {
    Join4(w, x, y, z, ".");
  }

  lemma PrivateSubnetOf(a: Address4, w: string, x: string, y: string)
    requires Classify(a) == PrivateRfc1918
    requires NatToString(a[0]) == w && NatToString(a[1]) == x && NatToString(a[2]) == y
    ensures DefaultSubnet4(a) == w + "." + x + "." + y + ".0/24"
  {
    DefaultSubnet4Meaning(a);
    assert NatToString(0) == "0";
    FormatOf(Network24(a), w, x, y, "0");
  }

  lemma Decimals()
    ensures NatToString(0) == "0" && NatToString(1) == "1" && NatToString(5) == "5"
    ensures NatToString(10) == "10" && NatToString(168) == "168" && NatToString(192) == "192"
    ensures NatToString(255) == "255"
  {
    assert NatToString(16) == "16";
    assert NatToString(19) == "19";
    assert NatToString(25) == "25";
  }

  // ---------------------------------------------------------------------------
  // test_ipv4_relaxed_leading_zeros

  /** A three-digit segment whose value is at most 255 is that octet for the relaxed parser. */
  lemma Octet3(p: string, n: nat)
    requires |p| == 3 && AllDigits(p) && n <= 255
    requires n == 100 * DigitValue(p[0]) + 10 * DigitValue(p[1]) + DigitValue(p[2])
    ensures RelaxedOctet(p) == Some(n)
    ensures p[0] == '0' ==> StrictOctet(p).None?
  {
    Digits3(p);
    RelaxedOctetIff(p);
  }

  lemma LeadingZerosOctets(w: string, x: string, y: string, z: string)
    requires w == "192" && x == "168" && y == "010" && z == "005"
    ensures RelaxedOctet(w) == Some(192) && RelaxedOctet(x) == Some(168)
    ensures RelaxedOctet(y) == Some(10) && RelaxedOctet(z) == Some(5)
    ensures StrictOctet(y).None?
  {
    Octet3(w, 192);
    Octet3(x, 168);
    Octet3(y, 10);
    Octet3(z, 5);
  }

  lemma LeadingZerosSplit(s: string, w: string, x: string, y: string, z: string)
    requires s == "192.168.010.005" && w == "192" && x == "168" && y == "010" && z == "005"
    ensures Split(s, '.') == [w, x, y, z]
  {
    assert w + "." + x + "." + y + "." + z == s;
    SplitOf4(w, x, y, z);
  }

  lemma LeadingZerosParsed(s: string)
    requires s == "192.168.010.005"
    ensures RelaxedParse(s) == Some([192, 168, 10, 5]) && ParseStrict(s).None?
  {
    var w, x, y, z := "192", "168", "010", "005";
    LeadingZerosSplit(s, w, x, y, z);
    LeadingZerosOctets(w, x, y, z);
    RelaxedOf4(s, w, x, y, z, [192, 168, 10, 5]);
    StrictRejects4(s, w, x, y, z);
  }

  lemma LeadingZerosText(s: string)
    requires s == "192.168.010.005"
    ensures Strip(s) == s && !IsPlaceholder(s) && Candidate(s) == s
  {
    StripOfTrimmed(s);
    assert |Lower(s)| == 15;
  }

  lemma LeadingZerosFormat(a: Address4)
    requires a == [192, 168, 10, 5]
    ensures Format(a) == "192.168.10.5" && DefaultSubnet4(a) == "192.168.10.0/24"
    ensures !ReservedEdge(a)
  {
    Decimals();
    FormatOf(a, "192", "168", "10", "5");
    PrivateSubnetOf(a, "192", "168", "10");
  }

  /** "192.168.010.005" is accepted by the relaxed parser as 192.168.10.5. */
  lemma RelaxedLeadingZeros(lib: IPv6Library, t: string)
    requires t == "192.168.010.005"
    ensures var r := NormalizeIp(lib, Some(t));
      r.ip == "192.168.10.5" && r.valid == "true" && r.version == "4" &&
      r.subnet == "192.168.10.0/24" && IpParseRelaxed in r.steps && r.issues == []
  {
    LeadingZerosText(t);
    LeadingZerosParsed(t);
    LeadingZerosFormat([192, 168, 10, 5]);
    NormalizeIpAccepted4(lib, t);
  }

  // ---------------------------------------------------------------------------
  // test_ipv6_zone_id_drop

  lemma ZoneText(s: string)
    requires s == "fe80::1%eth0"
    ensures Strip(s) == s && !IsPlaceholder(s)
    ensures '%' in s && Candidate(s) == "fe80::1"
  {
    StripOfTrimmed(s);
    assert |Lower(s)| == 12;
    assert s[7] == '%' && '%' !in s[..7];
    SplitAt(s, '%', 7);
    assert s[..7] == "fe80::1";
  }

  lemma ZoneCandidateNotV4()
    ensures ParseStrict("fe80::1").None?
  {
    SplitNone("fe80::1", '.');
  }

  lemma ZoneCandidateSplit()
    ensures Split("fe80::1", ':') == ["fe80", "", "1"]
  {
    assert "fe80" + ":" + "" + ":" + "1" == "fe80::1";
    Join3("fe80", "", "1", ":");
    SplitJoin(["fe80", "", "1"], ':');
  }

  lemma Join3(x: string, y: string, z: string, sep: string)
    ensures Join([x, y, z], sep) == x + sep + y + sep + z
  {
    assert [x, y, z][1..] == [y, z];
    assert [y, z][1..] == [z];
    assert Join([y, z], sep) == y + sep + z;
  }

  /**
   * "fe80::1%eth0" loses its zone and comes out as the IPv6 address the
   * library makes of "fe80::1"; the test's expectations hold for a library
   * that gives that address the compressed form "fe80::1", calls it
   * link-local and puts it in the network "fe80::/64".
   */
  lemma ZoneIdDropped(lib: IPv6Library, info: IPv6Info, text: string)
    requires text == "fe80::1%eth0" && lib.parse("fe80::1") == Some(info)
    requires info.compressed == "fe80::1" && info.isLinkLocal && info.network64 == "fe80::/64"
    ensures var r := NormalizeIp(lib, Some(text));
      r.ip == "fe80::1" && r.valid == "true" && r.version == "6" &&
      r.subnet == "fe80::/64" && IpDropZone in r.steps && r.issues == []
  {
    ZoneText(text);
    ZoneCandidateNotV4();
    ZoneCandidateSplit();
    assert IpAddress(lib, "fe80::1") == Some(V6(info));
    NormalizeIpAccepted6(lib, text, info);
  }

  // ---------------------------------------------------------------------------
  // test_invalid_ipv4_returns_issue

  lemma OutOfRangeOctet()
    ensures RelaxedOctet("300").None? && StrictOctet("300").None?
  {
    Digits3("300");
    RelaxedOctetIff("300");
  }

  lemma OutOfRangeSplit()
    ensures Split("10.0.1.300", '.') == ["10", "0", "1", "300"]
  {
    assert "10" + "." + "0" + "." + "1" + "." + "300" == "10.0.1.300";
    SplitOf4("10", "0", "1", "300");
  }

  lemma OutOfRangeText()
    ensures Strip("10.0.1.300") == "10.0.1.300" && !IsPlaceholder("10.0.1.300")
    ensures '%' !in "10.0.1.300" && ':' !in "10.0.1.300" && Candidate("10.0.1.300") == "10.0.1.300"
  {
    StripOfTrimmed("10.0.1.300");
    assert |Lower("10.0.1.300")| == 10;
  }

  lemma OutOfRangeRejected()
    ensures RelaxedParse("10.0.1.300").None? && ParseStrict("10.0.1.300").None?
  {
    OutOfRangeSplit();
    OutOfRangeOctet();
    RelaxedRejects4("10.0.1.300", "10", "0", "1", "300");
    StrictRejects4("10.0.1.300", "10", "0", "1", "300");
  }

  /** "10.0.1.300" is rejected with an `invalid` issue carrying the library's message. */
  lemma InvalidOctet(lib: IPv6Library)
    ensures var r := NormalizeIp(lib, Some("10.0.1.300"));
      r.ip == "10.0.1.300" && r.valid == "false" && r.version == "" && r.subnet == "" &&
      IpInvalidParse in r.steps &&
      r.issues == [Issue("ip", "invalid", "10.0.1.300", Some(lib.errorText("10.0.1.300")))]
  {
    OutOfRangeText();
    OutOfRangeRejected();
    assert IpAddress(lib, "10.0.1.300").None?;
  }

  // ---------------------------------------------------------------------------
  // test_reserved_edge_flagged

  /** The canonical text of an address goes through the strict parser alone. */
  lemma CanonicalAccepted(lib: IPv6Library, a: Address4)
    ensures NormalizeIp(lib, Some(Format(a))) == Accepted(Format(a), V4(a), [IpTrim])
  {
    var f := Format(a);
    FormatIsCanonicalInput(a);
    assert IpAddress(lib, f) == Some(V4(a));
    assert NormalizeIp(lib, Some(f)) == ParsedIp(f, false, Some(V4(a)), RelaxedParse(f), lib.errorText(f));
    assert [IpTrim] + [] == [IpTrim];
  }

  lemma EdgeFormat()
    ensures Format([192, 168, 1, 255]) == "192.168.1.255"
  {
    Decimals();
    FormatOf([192, 168, 1, 255], "192", "168", "1", "255");
  }

  /** "192.168.1.255" is valid, and flagged as a private address ending in 255. */
  lemma ReservedEdgeFlagged(lib: IPv6Library, text: string)
    requires text == "192.168.1.255"
    ensures var r := NormalizeIp(lib, Some(text));
      r.valid == "true" && IpReservedEdge in r.steps &&
      r.issues == [Issue("ip", "reserved_edge", text, None)]
  {
    var a: Address4 := [192, 168, 1, 255];
    EdgeFormat();
    FormatIsCanonicalInput(a);
    CanonicalAccepted(lib, a);
    AcceptedV4(text, a, [IpTrim]);
    assert ReservedEdge(a);
  }

  // ---------------------------------------------------------------------------
  // test_default_subnet_private_and_link_local

  lemma DefaultSubnetPrivate(a: Address4)
    requires a == [10, 0, 0, 5]
    ensures DefaultSubnet(V4(a)) == "10.0.0.0/24"
  {
    Decimals();
    PrivateSubnetOf(a, "10", "0", "0");
  }

  lemma DefaultSubnetLinkLocal(a: Address4)
    requires a == [169, 254, 1, 1]
    ensures DefaultSubnet(V4(a)) == "169.254.0.0/16"
  {
    DefaultSubnet4Meaning(a);
  }

  // ---------------------------------------------------------------------------
  // test_hostname_from_fqdn_and_validation

  lemma ExampleLabels()
    ensures ValidLabel("srv-1") && ValidLabel("example") && ValidLabel("com")
    ensures !ValidLabel("bad_host")
  {
    assert !IsLabelChar("bad_host"[3]);
  }

  lemma ExampleFqdnSplit()
    ensures Split("srv-1.example.com", '.') == ["srv-1", "example", "com"]
  {
    assert "srv-1" + "." + "example" + "." + "com" == "srv-1.example.com";
    Join3("srv-1", "example", "com", ".");
    SplitJoin(["srv-1", "example", "com"], '.');
  }

  lemma FqdnOf3(f: string, a: string, b: string, c: string)
    requires Split(f, '.') == [a, b, c] && ValidLabel(a) && ValidLabel(b) && ValidLabel(c)
    ensures ValidFqdn(f) && Split(f, '.')[0] == a
  {
    var labels := [a, b, c];
    assert labels[0] == a && labels[1] == b && labels[2] == c;
  }

  lemma ExampleFqdnText(f: string)
    requires f == "srv-1.example.com"
    ensures TrimOrEmpty(Some(f)) == f && Lower(f) == f
  {
    StripOfTrimmed(f);
    LowerOfLowerCase(f);
  }

  lemma ExampleFqdnValid(f: string)
    requires f == "srv-1.example.com"
    ensures ValidFqdn(f) && Split(f, '.')[0] == "srv-1"
  {
    ExampleFqdnSplit();
    ExampleLabels();
    FqdnOf3(f, "srv-1", "example", "com");
  }

  /** With no hostname, the hostname is the first label of the valid FQDN, and the two agree. */
  lemma HostnameFromFqdnExample(f: string)
    requires f == "srv-1.example.com"
    ensures var r := NormalizeNames(Some(""), Some(f));
      r.hostname == "srv-1" && r.hostnameValid == "true" && r.fqdn == f &&
      r.fqdnConsistent == "true" && HostnameFromFqdn in r.steps && r.issues == []
  {
    ExampleFqdnText(f);
    ExampleFqdnValid(f);
    var r := NormalizeNames(Some(""), Some(f));
    assert r == NamesFromTrimmed("", f, "", f);
    assert r.steps == [FqdnTrim, FqdnLower, HostnameFromFqdn];
  }

  /** "bad_host" is kept, lower-cased, and reported as an invalid label. */
  lemma BadHostnameExample(h: string)
    requires h == "bad_host"
    ensures var r := NormalizeNames(Some(h), Some(""));
      r.hostname == h && r.hostnameValid == "false" &&
      r.issues == [Issue("hostname", "invalid_label", h, None)]
  {
    StripOfTrimmed(h);
    LowerOfLowerCase(h);
    ExampleLabels();
    assert NormalizeNames(Some(h), Some("")) == NamesFromTrimmed(h, "", h, "");
  }

  // ---------------------------------------------------------------------------
  // test_mac_normalization_and_invalid

  /** Six blocks of digits separated by '-' lose only the dashes. */
  lemma HexOnlyDashed6(a: string, b: string, c: string, d: string, e: string, f: string)
    requires HexOnly(a) == a && HexOnly(b) == b && HexOnly(c) == c
    requires HexOnly(d) == d && HexOnly(e) == e && HexOnly(f) == f
    ensures HexOnly(a + "-" + (b + "-" + (c + "-" + (d + "-" + (e + "-" + f))))) == a + (b + (c + (d + (e + f))))
  {
    var dash := "-";
    assert HexOnly(dash) == [] by {
      assert dash[1..] == [];
    }
    var t4 := e + dash + f;
    HexOnlyPiece(e, dash, f);
    var t3 := d + dash + t4;
    HexOnlyPiece(d, dash, t4);
    var t2 := c + dash + t3;
    HexOnlyPiece(c, dash, t3);
    var t1 := b + dash + t2;
    HexOnlyPiece(b, dash, t2);
    HexOnlyPiece(a, dash, t1);
  }

  lemma DashedMacPieces(m: string)
    requires m == "AA-BB-CC-DD-EE-FF"
    ensures m == "AA" + "-" + ("BB" + "-" + ("CC" + "-" + ("DD" + "-" + ("EE" + "-" + "FF"))))
  {
  }

  lemma DashedMacDigits(m: string)
    requires m == "AA-BB-CC-DD-EE-FF"
    ensures HexOnly(m) == "AABBCCDDEEFF"
  {
    DashedMacPieces(m);
    HexPair("AA");
    HexPair("BB");
    HexPair("CC");
    HexPair("DD");
    HexPair("EE");
    HexPair("FF");
    HexOnlyDashed6("AA", "BB", "CC", "DD", "EE", "FF");
  }

  lemma DashedPairs(h: string)
    requires h == "AABBCCDDEEFF"
    ensures h[0..2] == "AA" && h[2..4] == "BB" && h[4..6] == "CC"
    ensures h[6..8] == "DD" && h[8..10] == "EE" && h[10..12] == "FF"
  {
  }

  lemma LowerPair(x: string, y: string)
    requires |x| == 2 && IsUpper(x[0]) && IsUpper(x[1])
    requires |y| == 2 && y[0] == LowerChar(x[0]) && y[1] == LowerChar(x[1])
    ensures Lower(x) == y
  {
  }

  lemma DashedLowerText(t: string)
    requires t == "aa:bb:cc:dd:ee:ff"
    ensures t == "aa" + ":" + ("bb" + ":" + ("cc" + ":" + ("dd" + ":" + ("ee" + ":" + "ff"))))
  {
  }

  lemma DashedMacText(h: string)
    requires h == "AABBCCDDEEFF"
    ensures Hex12(h) && MacText(h) == "aa:bb:cc:dd:ee:ff"
  {
    MacTextPieces(h);
    DashedPairs(h);
    LowerPair("AA", "aa");
    LowerPair("BB", "bb");
    LowerPair("CC", "cc");
    LowerPair("DD", "dd");
    LowerPair("EE", "ee");
    LowerPair("FF", "ff");
    DashedLowerText("aa:bb:cc:dd:ee:ff");
  }

  /** Dashed upper-case digits become six lower-case pairs joined by ':'. */
  lemma DashedMacExample(m: string)
    requires m == "AA-BB-CC-DD-EE-FF"
    ensures var r := NormalizeMac(Some(m));
      r.mac == "aa:bb:cc:dd:ee:ff" && r.valid == "true" && MacNormalize in r.steps && r.issues == []
  {
    StripOfTrimmed(m);
    DashedMacDigits(m);
    DashedMacText("AABBCCDDEEFF");
  }

  /** Six digits are too few: the text is kept and reported. */
  lemma ShortMacExample(m: string)
    requires m == "AABBCC"
    ensures var r := NormalizeMac(Some(m));
      r.mac == m && r.valid == "false" && r.issues == [Issue("mac", "invalid_mac", m, None)]
  {
    StripOfTrimmed(m);
    HexOnlyOfHex(m);
  }

  // ---------------------------------------------------------------------------
  // test_device_inference_and_confidence

  /** A text lacking one of the characters of `sub` does not contain `sub`. */
  lemma MissingCharNotContained(s: string, sub: string, k: nat)
    requires k < |sub| && sub[k] !in s
    ensures !Contains(s, sub)
  {
    ContainsIff(s, sub);
    forall j: nat
      ensures !MatchesAt(s, sub, j)
    {
      if j + |sub| <= |s| {
        assert s[j..j + |sub|][k] == s[j + k] && s[j + k] in s;
      }
    }
  }

  lemma GatewayHints(h: string)
    requires h == "edge-gw edge gw"
    ensures !Contains(h, "printer") && !Contains(h, "switch")
    ensures !Contains(h, "router") && !Contains(h, "gateway") && Contains(h, "gw")
  {
    MissingCharNotContained(h, "printer", 0);
    MissingCharNotContained(h, "switch", 0);
    MissingCharNotContained(h, "router", 0);
    MissingCharNotContained(h, "gateway", 1);
    assert h[5..7] == "gw";
    ContainedAt(h, "gw", 5);
  }

  lemma ContainedAt(s: string, sub: string, j: nat)
    requires j + |sub| <= |s| && s[j..j + |sub|] == sub
    ensures Contains(s, sub)
  {
    MatchesAtIff(s, sub, j);
    ContainsFromIff(s, sub, 0);
  }

  /** "gw" in the hostname and notes makes a router, with medium confidence. */
  lemma GatewayInferred(host: string, notes: string)
    requires host == "edge-gw" && notes == "edge gw"
    ensures var r := NormalizeDeviceType(Some(""), host, Some(notes));
      r.deviceType == "router" && r.confidence == "medium" && DeviceInferred in r.steps
  {
    LowerOfLowerCase(host);
    LowerOfLowerCase(notes);
    assert Hints(host, Some(notes)) == "edge-gw edge gw";
    GatewayHints("edge-gw edge gw");
  }

  /** A given device type wins, with high confidence. */
  lemma GivenDeviceType(host: string)
    requires host == "srv-1"
    ensures var r := NormalizeDeviceType(Some("server"), host, Some(""));
      r.deviceType == "server" && r.confidence == "high" && DeviceFromInput in r.steps
  {
    StripOfTrimmed("server");
    LowerOfLowerCase("server");
  }

  // ---------------------------------------------------------------------------
  // test_site_normalization_mapping

  lemma BuildingLower(site: string)
    requires site == "HQ-BUILDING-1"
    ensures Lower(site) == "hq-building-1"
  {
  }

  lemma BuildingDeHyphen(t: string)
    requires t == "hq-building-1"
    ensures ReplaceChar(t, '-', ' ') == "hq building 1"
  {
  }

  lemma BuildingCollapsed(k: string)
    requires k == "hq building 1"
    ensures Strip(CollapseSpaces(k)) == k
  {
    CollapseOfCollapsed(k);
    StripOfTrimmed(k);
  }

  lemma BuildingKey(site: string)
    requires site == "HQ-BUILDING-1"
    ensures SiteKey(site) == "hq building 1"
  {
    BuildingLower(site);
    BuildingDeHyphen("hq-building-1");
    BuildingCollapsed("hq building 1");
  }

  lemma BuildingLookup(k: string)
    requires k == "hq building 1"
    ensures Lookup(k) == "HQ BLDG 1"
  {
    assert k in Aliases;
  }

  /** "HQ-BUILDING-1" is kept as given and normalized through the alias table. */
  lemma BuildingAlias(site: string)
    requires site == "HQ-BUILDING-1"
    ensures var r := NormalizeSite(Some(site));
      r.site == site && r.normalized == "HQ BLDG 1" && SiteNormalize in r.steps
  {
    assert Trimmed(site);
    SiteOfLong(site);
    BuildingKey(site);
    BuildingLookup("hq building 1");
  }

  /** A trimmed cell longer than "n/a" is looked up. */
  lemma SiteOfLong(site: string)
    requires Trimmed(site) && |site| > 3
    ensures NormalizeSite(Some(site)) == SiteResult(site, Lookup(SiteKey(site)), [SiteTrim, SiteNormalize])
  {
    StripOfTrimmed(site);
    assert |Lower(site)| == |site|;
  }
}
