/**
 * IPv4 addresses as four octets: the strict text form accepted by Python's
 * `ipaddress.IPv4Address`, the relaxed fallback `parse_ipv4_relaxed`
 * (run.py:107-127), the classification `classify_ipv4_type` (run.py:80-88),
 * the IPv4 branch of `default_subnet` (run.py:91-101) and the reverse-DNS
 * pointer name of section 3.5 of RFC 1035.
 */
module IPv4 {
  import opened Wrappers
  import opened Text

  type Octet = n: nat | n < 256

  /** An IPv4 address: its four octets, most significant first (`ip_obj.packed`). */
  type Address4 = s: seq<Octet> | |s| == 4 witness [0, 0, 0, 0]

  /** The 32-bit value of the address. */
  function Value(a: Address4): nat
  {
    a[0] as int * 0x100_0000 + a[1] as int * 0x1_0000 + a[2] as int * 0x100 + a[3] as int
  }

  /** The decimal texts of the four octets. */
  function OctetTexts(a: Address4): (r: seq<string>)
    ensures |r| == 4
  {
    [NatToString(a[0]), NatToString(a[1]), NatToString(a[2]), NatToString(a[3])]
  }

  /** `str(ip_obj)`: dotted decimal, each octet without leading zeros. */
  function Format(a: Address4): string
  {
    Join(OctetTexts(a), ".")
  }

  lemma Join4(w: string, x: string, y: string, z: string, sep: string)
    ensures Join([w, x, y, z], sep) == w + sep + x + sep + y + sep + z
  {
    assert [w, x, y, z][1..] == [x, y, z];
    assert [x, y, z][1..] == [y, z];
    assert [y, z][1..] == [z];
    assert Join([y, z], sep) == y + sep + z;
    assert Join([x, y, z], sep) == x + sep + (y + sep + z);
  }

  lemma SplitFormat(a: Address4)
    ensures Split(Format(a), '.') == OctetTexts(a)
  {
    var t := OctetTexts(a);
    forall k | 0 <= k < 4 ensures '.' !in t[k] {
      assert AllDigits(t[k]);
    }
    SplitJoin(t, '.');
  }

  /** The text form is digits and dots, and starts and ends with a digit. */
  lemma FormatShape(a: Address4)
    ensures Format(a) != [] && IsDigit(Format(a)[0]) && IsDigit(Format(a)[|Format(a)| - 1])
    ensures forall i :: 0 <= i < |Format(a)| ==> IsDigit(Format(a)[i]) || Format(a)[i] == '.'
  {
    var t := OctetTexts(a);
    Join4(t[0], t[1], t[2], t[3], ".");
    var f := Format(a);
    assert f == t[0] + "." + t[1] + "." + t[2] + "." + t[3];
    forall i | 0 <= i < |f| ensures IsDigit(f[i]) || f[i] == '.' {
      var n0, n1, n2 := |t[0]|, |t[1]|, |t[2]|;
      if i < n0 { assert f[i] == t[0][i]; }
      else if i == n0 { }
      else if i < n0 + 1 + n1 { assert f[i] == t[1][i - n0 - 1]; }
      else if i == n0 + 1 + n1 { }
      else if i < n0 + n1 + n2 + 2 { assert f[i] == t[2][i - n0 - n1 - 2]; }
      else if i == n0 + n1 + n2 + 2 { }
      else { assert f[i] == t[3][i - n0 - n1 - n2 - 3]; }
    }
    assert f[|f| - 1] == t[3][|t[3]| - 1];
  }

  // ---------------------------------------------------------------------------
  // Octet lists

  /** The octets `parse` gives for each part, or `None` as soon as one part is rejected. */
  function ParseOctets(parts: seq<string>, parse: string -> Option<Octet>): (r: Option<seq<Octet>>)
    ensures r.Some? ==> |r.value| == |parts|
    decreases |parts|
  {
    if parts == [] then Some([])
    else match ParseOctets(parts[..|parts| - 1], parse)
      case None => None
      case Some(os) =>
        match parse(parts[|parts| - 1])
        case None => None
        case Some(o) => Some(os + [o])
  }

  /** A list of parts is accepted iff every part is, and then each octet is its part's. */
  lemma {:induction false} ParseOctetsIff(parts: seq<string>, parse: string -> Option<Octet>)
    ensures ParseOctets(parts, parse).Some? <==> forall k :: 0 <= k < |parts| ==> parse(parts[k]).Some?
    ensures ParseOctets(parts, parse).Some? ==>
              forall k :: 0 <= k < |parts| ==> ParseOctets(parts, parse).value[k] == parse(parts[k]).value
    decreases |parts|
  {
    if parts != [] {
      var p := parts[..|parts| - 1];
      ParseOctetsIff(p, parse);
      assert forall k :: 0 <= k < |p| ==> p[k] == parts[k];
    }
  }

  /** Octet lists agree when the two parsers agree on every part. */
  lemma {:induction false} ParseOctetsAgree(parts: seq<string>, f: string -> Option<Octet>, g: string -> Option<Octet>)
    requires forall k :: 0 <= k < |parts| ==> f(parts[k]) == g(parts[k])
    ensures ParseOctets(parts, f) == ParseOctets(parts, g)
    decreases |parts|
  {
    if parts != [] {
      var p := parts[..|parts| - 1];
      assert forall k :: 0 <= k < |p| ==> p[k] == parts[k];
      ParseOctetsAgree(p, f, g);
    }
  }

  // ---------------------------------------------------------------------------
  // Strict parsing: `ipaddress.IPv4Address(text)`

  /** One octet as `IPv4Address` accepts it: 1-3 ASCII digits, no leading zero, at most 255. */
  function StrictOctet(p: string): (r: Option<Octet>)
    ensures r.Some? <==> p != "" && AllDigits(p) && |p| <= 3 && (p[0] == '0' ==> p == "0") && DigitsValue(p) <= 255
    ensures r.Some? ==> r.value == DigitsValue(p)
  {
    if p == "" || !AllDigits(p) || |p| > 3 then None
    else if p != "0" && p[0] == '0' then None
    else if DigitsValue(p) > 255 then None
    else Some(DigitsValue(p))
  }

  /** `IPv4Address(text)`, `None` where it raises `AddressValueError`. */
  function ParseStrict(s: string): Option<Address4>
  {
    var parts := Split(s, '.');
    if |parts| != 4 then None
    else match ParseOctets(parts, StrictOctet)
      case None => None
      case Some(os) => Some(os)
  }

  lemma StrictOctetOfText(n: Octet)
    ensures StrictOctet(NatToString(n)) == Some(n)
  {
    NatToStringLength(n);
    NatToStringValue(n);
  }

  /** The canonical text of an address parses strictly back to the address. */
  lemma ParseStrictFormat(a: Address4)
    ensures ParseStrict(Format(a)) == Some(a)
  {
    var t := OctetTexts(a);
    SplitFormat(a);
    forall k | 0 <= k < 4 ensures StrictOctet(t[k]) == Some(a[k]) {
      StrictOctetOfText(a[k]);
    }
    ParseOctetsIff(t, StrictOctet);
    assert ParseOctets(t, StrictOctet).value == a;
  }

  /** A strictly accepted text is the canonical text of the address it denotes. */
  lemma FormatParseStrict(s: string)
    requires ParseStrict(s).Some?
    ensures Format(ParseStrict(s).value) == s
  {
    var parts := Split(s, '.');
    var a := ParseStrict(s).value;
    ParseOctetsIff(parts, StrictOctet);
    forall k | 0 <= k < 4 ensures NatToString(a[k]) == parts[k] {
      NatToStringOfDigits(parts[k]);
    }
    assert OctetTexts(a) == parts;
    JoinSplit(s, '.');
  }

  // ---------------------------------------------------------------------------
  // Relaxed parsing: `parse_ipv4_relaxed`

  /**
   * `int(part, 10)` for a part that has passed the `isdigit` guard, i.e. is a
   * run of '+' followed by digits: one leading '+' is a sign, two or more make
   * `int` raise. (`int` also accepts surrounding whitespace, '-' and '_', none of
   * which pass the guard.)
   */
  function PyIntOfPlusDigits(p: string): Option<nat>
  {
    if p != "" && p[0] == '+' then
      (if p[1..] != "" && AllDigits(p[1..]) then Some(DigitsValue(p[1..])) else None)
    else if p != "" && AllDigits(p) then Some(DigitsValue(p))
    else None
  }

  /** The guard of run.py:115: `part.lstrip("+").isdigit() and not part.startswith("-")`. */
  predicate PassesDigitGuard(part: string)
  {
    var digits := LStripChar(part, '+');
    digits != "" && AllDigits(digits) && !(part != "" && part[0] == '-')
  }

  /** One part as the loop body of `parse_ipv4_relaxed` treats it. */
  function RelaxedOctet(part: string): Option<Octet>
  {
    if part == "" || !PassesDigitGuard(part) then None
    else match PyIntOfPlusDigits(part)
      case None => None
      case Some(value) => if value > 255 then None else Some(value)
  }

  /** The address `parse_ipv4_relaxed(candidate)` returns, `None` where it returns `None`. */
  function RelaxedParse(candidate: string): Option<Address4>
  {
    var parts := Split(candidate, '.');
    if |parts| != 4 then None
    else match ParseOctets(parts, RelaxedOctet)
      case None => None
      case Some(os) => Some(os)
  }

  /** A segment the relaxed parser accepts: decimal digits, optionally after a single '+'. */
  predicate RelaxedSegment(p: string)
  {
    var digits := if p != "" && p[0] == '+' then p[1..] else p;
    digits != "" && AllDigits(digits) && DigitsValue(digits) <= 255
  }

  /** The octet value of an accepted segment. */
  function SegmentValue(p: string): Octet
    requires RelaxedSegment(p)
  {
    DigitsValue(if p != "" && p[0] == '+' then p[1..] else p)
  }

  lemma RelaxedOctetIff(p: string)
    ensures RelaxedOctet(p).Some? <==> RelaxedSegment(p)
    ensures RelaxedSegment(p) ==> RelaxedOctet(p).value == SegmentValue(p)
  {
    if p != "" && p[0] == '+' {
      var q := p[1..];
      assert LStripChar(p, '+') == LStripChar(q, '+');
      if q != "" && AllDigits(q) {
        assert q[0] != '+';
        assert LStripChar(q, '+') == q;
      }
    }
  }

  /**
   * `parse_ipv4_relaxed` accepts exactly four '.'-separated segments, each of
   * digits (after at most one '+') with a value of at most 255, and returns the
   * address of those values: leading zeros are dropped.
   */
  lemma RelaxedParseIff(candidate: string)
    ensures var parts := Split(candidate, '.');
      RelaxedParse(candidate).Some? <==> |parts| == 4 && forall k :: 0 <= k < 4 ==> RelaxedSegment(parts[k])
    ensures var parts := Split(candidate, '.');
      RelaxedParse(candidate).Some? ==>
        forall k :: 0 <= k < 4 ==> RelaxedParse(candidate).value[k] == SegmentValue(parts[k])
  {
    var parts := Split(candidate, '.');
    ParseOctetsIff(parts, RelaxedOctet);
    forall k | 0 <= k < |parts| ensures RelaxedOctet(parts[k]).Some? <==> RelaxedSegment(parts[k]) {
      RelaxedOctetIff(parts[k]);
    }
    if RelaxedParse(candidate).Some? {
      forall k | 0 <= k < 4 ensures RelaxedParse(candidate).value[k] == SegmentValue(parts[k]) {
        RelaxedOctetIff(parts[k]);
      }
    }
  }

  /** Everything the strict parser accepts the relaxed parser accepts, with the same address. */
  lemma StrictImpliesRelaxed(s: string)
    requires ParseStrict(s).Some?
    ensures RelaxedParse(s) == ParseStrict(s)
  {
    var parts := Split(s, '.');
    ParseOctetsIff(parts, StrictOctet);
    forall k | 0 <= k < |parts| ensures RelaxedOctet(parts[k]) == StrictOctet(parts[k]) {
      var p := parts[k];
      assert p[0] != '+';
      RelaxedOctetIff(p);
    }
    ParseOctetsAgree(parts, RelaxedOctet, StrictOctet);
  }

  /** The characters of an accepted segment are digits and a leading '+'. */
  lemma SegmentHasNoColon(p: string)
    requires RelaxedSegment(p)
    ensures ':' !in p
  {
    if p[0] == '+' {
      assert forall i :: 1 <= i < |p| ==> p[i] == p[1..][i - 1];
    }
  }

  /** A text the relaxed parser accepts has no ':' in it, so it is never an IPv6 candidate. */
  lemma RelaxedHasNoColon(s: string)
    requires RelaxedParse(s).Some?
    ensures ':' !in s
  {
    var parts := Split(s, '.');
    RelaxedParseIff(s);
    forall k | 0 <= k < |parts| ensures ':' !in parts[k] {
      SegmentHasNoColon(parts[k]);
    }
    SplitPiecesWithout(s, '.', ':');
  }

  lemma OctetsPrefixRejected(parts: seq<string>, i: nat)
    requires i < |parts| && RelaxedOctet(parts[i]).None?
    ensures ParseOctets(parts, RelaxedOctet).None?
  {
    ParseOctetsIff(parts, RelaxedOctet);
  }

  lemma OctetsExtend(parts: seq<string>, i: nat, os: seq<Octet>, o: Octet)
    requires i < |parts| && ParseOctets(parts[..i], RelaxedOctet) == Some(os) && RelaxedOctet(parts[i]) == Some(o)
    ensures ParseOctets(parts[..i + 1], RelaxedOctet) == Some(os + [o])
  {
    assert parts[..i + 1][..i] == parts[..i];
  }

  /** The loop of `parse_ipv4_relaxed`, appending each checked octet's canonical text. */
  method ParseIPv4Relaxed(candidate: string) returns (r: Option<Address4>)
    ensures r == RelaxedParse(candidate)
  {
    var parts := Split(candidate, '.');
    if |parts| != 4 {
      return None;
    }
    var canonicalParts: seq<string> := [];
    ghost var octets: seq<Octet> := [];
    for i := 0 to 4
      invariant ParseOctets(parts[..i], RelaxedOctet) == Some(octets)
      invariant |canonicalParts| == i
      invariant forall k :: 0 <= k < i ==> canonicalParts[k] == NatToString(octets[k])
    {
      var part := parts[i];
      if part == "" {
        OctetsPrefixRejected(parts, i);
        return None;
      }
      var digits := LStripChar(part, '+');
      if !(digits != "" && AllDigits(digits) && part[0] != '-') {
        OctetsPrefixRejected(parts, i);
        return None;
      }
      var value := PyIntOfPlusDigits(part);
      if value.None? || value.value > 255 {
        OctetsPrefixRejected(parts, i);
        return None;
      }
      OctetsExtend(parts, i, octets, value.value);
      octets := octets + [value.value];
      canonicalParts := canonicalParts + [NatToString(value.value)];
    }
    assert parts[..4] == parts;
    assert canonicalParts == OctetTexts(octets);
    ParseStrictFormat(octets);
    r := ParseStrict(Join(canonicalParts, "."));
  }

  // ---------------------------------------------------------------------------
  // Classification, default subnet, reverse pointer

  datatype IPv4Type = PrivateRfc1918 | LinkLocalApipa | Loopback | PublicOrOther

  /** `classify_ipv4_type`: decided by the first two octets. */
  function Classify(a: Address4): IPv4Type
  {
    var first, second := a[0], a[1];
    if first == 10 || (first == 172 && 16 <= second <= 31) || (first == 192 && second == 168) then PrivateRfc1918
    else if first == 169 && second == 254 then LinkLocalApipa
    else if first == 127 then Loopback
    else PublicOrOther
  }

  /**
   * The classification agrees with the address blocks: 10.0.0.0/8,
   * 172.16.0.0/12 and 192.168.0.0/16 (section 3 of RFC 1918), 169.254.0.0/16
   * and 127.0.0.0/8, written as ranges of the 32-bit value.
   */
  lemma ClassifyByValue(a: Address4)
    ensures Classify(a) == PrivateRfc1918 <==>
      (0x0A00_0000 <= Value(a) <= 0x0AFF_FFFF) ||
      (0xAC10_0000 <= Value(a) <= 0xAC1F_FFFF) ||
      (0xC0A8_0000 <= Value(a) <= 0xC0A8_FFFF)
    ensures Classify(a) == LinkLocalApipa <==> 0xA9FE_0000 <= Value(a) <= 0xA9FE_FFFF
    ensures Classify(a) == Loopback <==> 0x7F00_0000 <= Value(a) <= 0x7FFF_FFFF
  {
    var low := a[1] as int * 0x1_0000 + a[2] as int * 0x100 + a[3] as int;
    assert 0 <= low <= 0xFF_FFFF;
    assert Value(a) == a[0] as int * 0x100_0000 + low;
    var low2 := a[2] as int * 0x100 + a[3] as int;
    assert 0 <= low2 <= 0xFFFF;
  }

  /** The network of the /24 containing the address. */
  function Network24(a: Address4): Address4
  {
    [a[0], a[1], a[2], 0]
  }

  /** The IPv4 branch of `default_subnet`. */
  function DefaultSubnet4(a: Address4): string
  {
    match Classify(a)
    case PrivateRfc1918 =>
      var parts := Split(Format(a), '.');
      if |parts| < 3 then "" else parts[0] + "." + parts[1] + "." + parts[2] + ".0/24"
    case LinkLocalApipa => "169.254.0.0/16"
    case Loopback => "127.0.0.0/8"
    case PublicOrOther => ""
  }

  /**
   * The default subnet of a private address is the /24 network containing it;
   * link-local and loopback addresses get their fixed blocks; others get none.
   */
  lemma DefaultSubnet4Meaning(a: Address4)
    ensures Classify(a) == PrivateRfc1918 ==>
      DefaultSubnet4(a) == Format(Network24(a)) + "/24" &&
      Value(Network24(a)) <= Value(a) < Value(Network24(a)) + 256
    ensures Classify(a) == LinkLocalApipa ==> DefaultSubnet4(a) == "169.254.0.0/16"
    ensures Classify(a) == Loopback ==> DefaultSubnet4(a) == "127.0.0.0/8"
    ensures Classify(a) == PublicOrOther ==> DefaultSubnet4(a) == ""
  {
    SplitFormat(a);
    var t := OctetTexts(a);
    assert NatToString(0) == "0";
    Join4(t[0], t[1], t[2], t[3], ".");
    Join4(t[0], t[1], t[2], "0", ".");
  }

  /** `int(str(ip_obj).split(".")[3])`, the last octet read back from the text. */
  function LastOctet(a: Address4): (r: nat)
    ensures r == a[3]
  {
    SplitFormat(a);
    NatToStringValue(a[3]);
    DigitsValue(Split(Format(a), '.')[3])
  }

  /** `reverse_pointer` of an IPv4 address: the text octets reversed, then ".in-addr.arpa". */
  function ReversePointer4(a: Address4): string
  {
    var parts := Split(Format(a), '.');
    var reversed := seq(|parts|, i requires 0 <= i < |parts| => parts[|parts| - 1 - i]);
    Join(reversed, ".") + ".in-addr.arpa"
  }

  /** The pointer name is d.c.b.a.in-addr.arpa (section 3.5 of RFC 1035). */
  lemma ReversePointer4Meaning(a: Address4)
    ensures ReversePointer4(a) == Format([a[3], a[2], a[1], a[0]]) + ".in-addr.arpa"
  {
    SplitFormat(a);
    var t := OctetTexts(a);
    var parts := Split(Format(a), '.');
    var reversed := seq(|parts|, i requires 0 <= i < |parts| => parts[|parts| - 1 - i]);
    assert reversed == [t[3], t[2], t[1], t[0]];
    assert OctetTexts([a[3], a[2], a[1], a[0]]) == [t[3], t[2], t[1], t[0]];
  }
}
