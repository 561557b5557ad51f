/**
 * `normalize_ip` (run.py:130-173): trims the cell, recognises the missing and
 * placeholder cases, drops an IPv6 zone id after '%', parses with Python's
 * `ipaddress.ip_address`, falls back to `parse_ipv4_relaxed`, and derives the
 * version, the default subnet and the `reserved_edge` issue.
 *
 * IPv6 is outside the model: the IPv6 half of the `ipaddress` module is a
 * parameter (`IPv6Library`). Everything proved about IPv4 inputs holds for
 * every such parameter, because a text without ':' never reaches it.
 */
module IpNormalizer {
  import opened Wrappers
  import opened Text
  import opened IPv4
  import opened Records

  /** What a row needs of an `IPv6Address` object. */
  datatype IPv6Info = IPv6Info(
    compressed: string,    // `ip_obj.compressed`
    isLinkLocal: bool,     // `ip_obj.is_link_local`
    network64: string,     // `str(IPv6Network(f"{compressed}/64", strict=False))`
    reversePointer: string // `ip_obj.reverse_pointer`
  )

  /**
   * The IPv6 half of the `ipaddress` module: `parse(text)` is
   * `IPv6Address(text)` (`None` where it raises) and `errorText(text)` is the
   * message of the `ValueError` that `ip_address(text)` raises.
   */
  datatype IPv6Library = IPv6Library(parse: string -> Option<IPv6Info>, errorText: string -> string)

  /** An address object as `ip_address` returns it. */
  datatype Address = V4(v4: Address4) | V6(v6: IPv6Info)

  /**
   * `IPv6Address(text)`. The library rejects any text with fewer than three
   * ':'-separated parts before looking further; only the rest is left to `lib`.
   */
  function ParseIPv6(lib: IPv6Library, s: string): (r: Option<IPv6Info>)
    ensures r.Some? ==> ':' in s
  {
    if |Split(s, ':')| < 3 then None
    else
      assert ':' in s by {
        if ':' !in s {
          SplitNone(s, ':');
        }
      }
      lib.parse(s)
  }

  /** `ipaddress.ip_address(text)`: the strict IPv4 form first, then IPv6. */
  function IpAddress(lib: IPv6Library, s: string): (r: Option<Address>)
    ensures ParseStrict(s).Some? ==> r == Some(V4(ParseStrict(s).value))
    ensures ParseStrict(s).None? && ':' !in s ==> r.None?
    ensures r.Some? && r.value.V6? ==> ':' in s
  {
    match ParseStrict(s)
    case Some(a) => Some(V4(a))
    case None =>
      match ParseIPv6(lib, s)
      case Some(info) => Some(V6(info))
      case None => None
  }

  /** `ip_obj.compressed` */
  function Compressed(addr: Address): string
  {
    match addr
    case V4(a) => Format(a)
    case V6(info) => info.compressed
  }

  /** `str(ip_obj.version)` */
  function Version(addr: Address): string
  {
    match addr
    case V4(_) => "4"
    case V6(_) => "6"
  }

  /** `default_subnet(ip_obj)` (run.py:91-104). */
  function DefaultSubnet(addr: Address): string
  {
    match addr
    case V4(a) => DefaultSubnet4(a)
    case V6(info) => if info.isLinkLocal then info.network64 else ""
  }

  /** `ip_obj.reverse_pointer` */
  function ReversePointer(addr: Address): string
  {
    match addr
    case V4(a) => ReversePointer4(a)
    case V6(info) => info.reversePointer
  }

  /** The condition of run.py:167-169: a private address whose last octet is 0 or 255. */
  predicate ReservedEdge(a: Address4)
  {
    Classify(a) == PrivateRfc1918 && LastOctet(a) in {0, 255}
  }

  /** The tuple `normalize_ip` returns: ip, ip_valid, ip_version, subnet, steps, issues. */
  datatype IpResult = IpResult(
    ip: string, valid: string, version: string, subnet: string,
    steps: seq<Step>, issues: seq<Issue>)

  /** The placeholders of run.py:140, compared case-insensitively. */
  predicate IsPlaceholder(raw: string)
  {
    Lower(raw) in {"n/a", "na", "none", ""}
  }

  /** The text handed to `ip_address`: everything before the first '%'. */
  function Candidate(raw: string): (r: string)
    ensures '%' !in r
  {
    if '%' in raw then Split(raw, '%')[0] else raw
  }

  /** run.py:162-173, once `ip_obj` is known; `steps` are those appended so far. */
  function Accepted(raw: string, addr: Address, steps: seq<Step>): IpResult
  {
    var parsed := steps + [IpParse, IpNormalize];
    if addr.V4? && ReservedEdge(addr.v4) then
      IpResult(Compressed(addr), "true", Version(addr), DefaultSubnet(addr),
               parsed + [IpReservedEdge], [Issue("ip", "reserved_edge", raw, None)])
    else
      IpResult(Compressed(addr), "true", Version(addr), DefaultSubnet(addr), parsed, [])
  }

  /** `normalize_ip(ip_str)`, with `None` for a missing cell. */
  function NormalizeIp(lib: IPv6Library, ipStr: Option<string>): IpResult
  {
    match ipStr
    case None => IpResult("", "false", "", "", [IpMissing], [Issue("ip", "missing", "", None)])
    case Some(text) =>
      var raw := Strip(text);
      if IsPlaceholder(raw) then
        IpResult(raw, "false", "", "", [IpTrim, IpMissing], [Issue("ip", "missing", raw, None)])
      else
        var candidate := Candidate(raw);
        ParsedIp(raw, '%' in raw, IpAddress(lib, candidate), RelaxedParse(candidate), lib.errorText(candidate))
  }

  /**
   * run.py:146-173 once the trimmed text `raw` is known to be no placeholder:
   * `zoned` says whether a zone was dropped, `parsed` is what `ip_address`
   * returned for the candidate, `relaxed` what `parse_ipv4_relaxed` returned
   * for it, and `error` the message `ip_address` raised.
   */
  function ParsedIp(raw: string, zoned: bool, parsed: Option<Address>, relaxed: Option<Address4>, error: string): IpResult
  {
    var zone := if zoned then [IpDropZone] else [];
    match parsed
    case Some(addr) => Accepted(raw, addr, [IpTrim] + zone)
    case None =>
      match relaxed
      case Some(a) => Accepted(raw, V4(a), [IpTrim] + zone + [IpParseRelaxed])
      case None =>
        IpResult(raw, "false", "", "", [IpTrim] + zone + [IpInvalidParse],
                 [Issue("ip", "invalid", raw, Some(error))])
  }

  // ---------------------------------------------------------------------------
  // Properties

  /**
   * After the placeholder test the result is valid exactly when one of the two
   * parsers accepted; it then carries at most the `reserved_edge` issue, and
   * otherwise the trimmed text, empty version and subnet, the step
   * `ip_invalid_parse` last and one `invalid` issue with the library's message.
   */
  lemma ParsedIpShape(raw: string, zoned: bool, parsed: Option<Address>, relaxed: Option<Address4>, error: string)
    ensures var r := ParsedIp(raw, zoned, parsed, relaxed, error);
      (r.valid == "true" || r.valid == "false") &&
      (r.valid == "true" <==> parsed.Some? || relaxed.Some?) &&
      |r.steps| > 0 && r.steps[0] == IpTrim &&
      (r.valid == "true" ==>
        |r.issues| <= 1 && forall k :: 0 <= k < |r.issues| ==> r.issues[k].field == "ip" && r.issues[k].kind == "reserved_edge") &&
      (r.valid == "false" ==>
        r.ip == raw && r.version == "" && r.subnet == "" && r.steps[|r.steps| - 1] == IpInvalidParse &&
        r.issues == [Issue("ip", "invalid", raw, Some(error))])
  {
    var zone := if zoned then [IpDropZone] else [];
    if parsed.Some? {
      AcceptedShape(raw, parsed.value, [IpTrim] + zone);
    } else if relaxed.Some? {
      AcceptedShape(raw, V4(relaxed.value), [IpTrim] + zone + [IpParseRelaxed]);
    }
  }

  lemma AcceptedShape(raw: string, addr: Address, steps: seq<Step>)
    requires |steps| > 0
    ensures var r := Accepted(raw, addr, steps);
      r.valid == "true" && r.steps[0] == steps[0] &&
      |r.issues| <= 1 && forall k :: 0 <= k < |r.issues| ==> r.issues[k].field == "ip" && r.issues[k].kind == "reserved_edge"
  {
  }

  /**
   * `ip_valid` is "true" or "false", and "true" exactly when the trimmed text is
   * no placeholder and its candidate parses (by `ip_address` or the relaxed
   * parser). A valid result carries at most the `reserved_edge` issue.
   */
  lemma NormalizeIpValid(lib: IPv6Library, ipStr: Option<string>)
    ensures var r := NormalizeIp(lib, ipStr);
      (r.valid == "true" || r.valid == "false") &&
      (r.valid == "true" <==>
        ipStr.Some? && !IsPlaceholder(Strip(ipStr.value)) &&
        (IpAddress(lib, Candidate(Strip(ipStr.value))).Some? ||
         RelaxedParse(Candidate(Strip(ipStr.value))).Some?))
    ensures var r := NormalizeIp(lib, ipStr);
      r.valid == "true" ==>
        |r.issues| <= 1 && forall k :: 0 <= k < |r.issues| ==> r.issues[k].field == "ip" && r.issues[k].kind == "reserved_edge"
  {
    if ipStr.Some? && !IsPlaceholder(Strip(ipStr.value)) {
      var raw := Strip(ipStr.value);
      var c := Candidate(raw);
      ParsedIpShape(raw, '%' in raw, IpAddress(lib, c), RelaxedParse(c), lib.errorText(c));
    }
  }

  /**
   * The three failure shapes. Every failure has `ip_valid` "false", empty
   * version and subnet, and exactly one issue: `missing` with value "" and the
   * single step `ip_missing` for an absent cell (the only result without
   * `ip_trim`); `missing` with the trimmed text for a placeholder; `invalid`
   * with the trimmed text and the library's message for an unparseable text.
   */
  lemma NormalizeIpFailure(lib: IPv6Library, ipStr: Option<string>)
    ensures var r := NormalizeIp(lib, ipStr);
      r.valid == "false" ==> r.version == "" && r.subnet == "" && |r.issues| == 1 && r.issues[0].field == "ip"
    ensures ipStr.None? ==>
      NormalizeIp(lib, ipStr) == IpResult("", "false", "", "", [IpMissing], [Issue("ip", "missing", "", None)])
    ensures ipStr.Some? ==> |NormalizeIp(lib, ipStr).steps| > 0 && NormalizeIp(lib, ipStr).steps[0] == IpTrim
    ensures ipStr.Some? && IsPlaceholder(Strip(ipStr.value)) ==>
      var raw := Strip(ipStr.value);
      NormalizeIp(lib, ipStr) == IpResult(raw, "false", "", "", [IpTrim, IpMissing], [Issue("ip", "missing", raw, None)])
    ensures var r := NormalizeIp(lib, ipStr);
      ipStr.Some? && !IsPlaceholder(Strip(ipStr.value)) && r.valid == "false" ==>
        var raw := Strip(ipStr.value);
        r.ip == raw && r.steps[|r.steps| - 1] == IpInvalidParse &&
        r.issues == [Issue("ip", "invalid", raw, Some(lib.errorText(Candidate(raw))))]
  {
    if ipStr.Some? && !IsPlaceholder(Strip(ipStr.value)) {
      var raw := Strip(ipStr.value);
      var c := Candidate(raw);
      ParsedIpShape(raw, '%' in raw, IpAddress(lib, c), RelaxedParse(c), lib.errorText(c));
    }
  }

  /** The accepted result for an IPv4 address, field by field. */
  lemma AcceptedV4(raw: string, a: Address4, steps: seq<Step>)
    ensures var r := Accepted(raw, V4(a), steps);
      r.ip == Format(a) && r.valid == "true" && r.version == "4" && r.subnet == DefaultSubnet4(a) &&
      r.issues == (if Classify(a) == PrivateRfc1918 && (a[3] == 0 || a[3] == 255)
                   then [Issue("ip", "reserved_edge", raw, None)] else []) &&
      r.steps[..|steps|] == steps &&
      forall st :: st in r.steps <==> st in steps || st == IpParse || st == IpNormalize || (st == IpReservedEdge && ReservedEdge(a))
  {
  }

  /**
   * The parse stage gives an IPv4 address `a` either when `ip_address` returned
   * it (`viaStrict`) or when it failed and the relaxed parser returned it; the
   * result is then that address, with `ip_parse_relaxed` exactly in the second
   * case and `ip_drop_zone` exactly when a zone was dropped.
   */
  lemma ParsedIpV4(raw: string, zoned: bool, parsed: Option<Address>, relaxed: Option<Address4>, error: string,
                   a: Address4, viaStrict: bool)
    requires if viaStrict then parsed == Some(V4(a)) else parsed.None? && relaxed == Some(a)
    ensures var r := ParsedIp(raw, zoned, parsed, relaxed, error);
      r.ip == Format(a) && r.valid == "true" && r.version == "4" && r.subnet == DefaultSubnet4(a) &&
      (IpParseRelaxed in r.steps <==> !viaStrict) &&
      (IpDropZone in r.steps <==> zoned) &&
      r.issues == (if Classify(a) == PrivateRfc1918 && (a[3] == 0 || a[3] == 255)
                   then [Issue("ip", "reserved_edge", raw, None)] else [])
  {
    var zone := if zoned then [IpDropZone] else [];
    if viaStrict {
      AcceptedV4(raw, a, [IpTrim] + zone);
    } else {
      AcceptedV4(raw, a, [IpTrim] + zone + [IpParseRelaxed]);
    }
  }

  /**
   * Exactly the texts the relaxed parser accepts come out as version "4",
   * whatever the IPv6 library does.
   */
  lemma NormalizeIpVersion4(lib: IPv6Library, text: string)
    requires !IsPlaceholder(Strip(text))
    ensures NormalizeIp(lib, Some(text)).version == "4" <==> RelaxedParse(Candidate(Strip(text))).Some?
  {
    var raw := Strip(text);
    var c := Candidate(raw);
    var parsed := IpAddress(lib, c);
    if ParseStrict(c).Some? {
      StrictImpliesRelaxed(c);
    } else if parsed.Some? {
      assert parsed.value.V6?;
      if RelaxedParse(c).Some? {
        RelaxedHasNoColon(c);
      }
    }
    VersionOfParsed(raw, '%' in raw, parsed, RelaxedParse(c), lib.errorText(c));
  }

  lemma VersionOfParsed(raw: string, zoned: bool, parsed: Option<Address>, relaxed: Option<Address4>, error: string)
    ensures ParsedIp(raw, zoned, parsed, relaxed, error).version == "4" <==>
      (parsed.Some? && parsed.value.V4?) || (parsed.None? && relaxed.Some?)
  {
  }

  /**
   * A text the relaxed parser accepts comes out as that IPv4 address, whatever
   * the IPv6 library does: dotted decimal without leading zeros, the default
   * subnet of the address, `ip_parse_relaxed` exactly when the strict form
   * rejected the text, `ip_drop_zone` exactly when there was a zone, and the
   * `reserved_edge` issue exactly when the address is private with last octet
   * 0 or 255.
   */
  lemma NormalizeIpAccepted4(lib: IPv6Library, text: string)
    requires !IsPlaceholder(Strip(text)) && RelaxedParse(Candidate(Strip(text))).Some?
    ensures var raw := Strip(text); var c := Candidate(raw); var r := NormalizeIp(lib, Some(text));
      var a := RelaxedParse(c).value;
      r.ip == Format(a) && r.valid == "true" && r.version == "4" && r.subnet == DefaultSubnet4(a) &&
      (IpParseRelaxed in r.steps <==> ParseStrict(c).None?) &&
      (IpDropZone in r.steps <==> '%' in raw) &&
      r.issues == (if Classify(a) == PrivateRfc1918 && (a[3] == 0 || a[3] == 255)
                   then [Issue("ip", "reserved_edge", raw, None)] else [])
  {
    var raw := Strip(text);
    var c := Candidate(raw);
    var a := RelaxedParse(c).value;
    if ParseStrict(c).Some? {
      StrictImpliesRelaxed(c);
    } else {
      RelaxedHasNoColon(c);
    }
    ParsedIpV4(raw, '%' in raw, IpAddress(lib, c), RelaxedParse(c), lib.errorText(c), a, ParseStrict(c).Some?);
  }

  /**
   * A text whose candidate the library parses as an IPv6 address comes out as
   * the compressed form, version "6", the /64 network exactly when the address
   * is link-local, no issue, and `ip_drop_zone` exactly when there was a zone.
   */
  lemma NormalizeIpAccepted6(lib: IPv6Library, text: string, info: IPv6Info)
    requires !IsPlaceholder(Strip(text)) && IpAddress(lib, Candidate(Strip(text))) == Some(V6(info))
    ensures var raw := Strip(text); var r := NormalizeIp(lib, Some(text));
      r.ip == info.compressed && r.valid == "true" && r.version == "6" &&
      r.subnet == (if info.isLinkLocal then info.network64 else "") && r.issues == [] &&
      r.steps == [IpTrim] + (if '%' in raw then [IpDropZone] else []) + [IpParse, IpNormalize]
  {
  }

  /** The canonical text of an address is trimmed, no placeholder, zone-free and strictly parsed. */
  lemma FormatIsCanonicalInput(a: Address4)
    ensures Strip(Format(a)) == Format(a) && !IsPlaceholder(Format(a))
    ensures '%' !in Format(a) && ':' !in Format(a) && Candidate(Format(a)) == Format(a)
    ensures ParseStrict(Format(a)) == Some(a)
  {
    var f := Format(a);
    FormatShape(a);
    StripOfTrimmed(f);
    assert Lower(f)[0] == f[0];
    ParseStrictFormat(a);
  }

  /**
   * An IPv4 result is a fixed point: normalizing its `ip` again gives the same
   * ip, validity, version, subnet and issue kinds, now via the strict parser
   * with no zone to drop.
   */
  lemma NormalizeIpIdempotent4(lib: IPv6Library, ipStr: Option<string>)
    requires NormalizeIp(lib, ipStr).valid == "true" && NormalizeIp(lib, ipStr).version == "4"
    ensures var r := NormalizeIp(lib, ipStr); var r2 := NormalizeIp(lib, Some(r.ip));
      r2.ip == r.ip && r2.valid == r.valid && r2.version == r.version && r2.subnet == r.subnet &&
      |r2.issues| == |r.issues| && (forall k :: 0 <= k < |r.issues| ==> r2.issues[k].kind == r.issues[k].kind) &&
      IpParseRelaxed !in r2.steps && IpDropZone !in r2.steps
  {
    var text := ipStr.value;
    NormalizeIpFailure(lib, ipStr);
    NormalizeIpVersion4(lib, text);
    NormalizeIpAccepted4(lib, text);
    var a := RelaxedParse(Candidate(Strip(text))).value;
    FormatIsCanonicalInput(a);
    StrictImpliesRelaxed(Format(a));
    NormalizeIpAccepted4(lib, Format(a));
  }

  /**
   * The reverse pointer step of run.py:367-373: `ip_address(ip_out)` re-parsed,
   * `None` where that raises.
   */
  function ReversePointerOf(lib: IPv6Library, ipOut: string): (r: Option<string>)
    ensures forall a: Address4 :: ipOut == Format(a) ==> r == Some(ReversePointer4(a))
  {
    FormatParseAll(ipOut);
    match IpAddress(lib, ipOut)
    case Some(addr) => Some(ReversePointer(addr))
    case None => None
  }

  lemma FormatParseAll(s: string)
    ensures forall a: Address4 :: s == Format(a) ==> ParseStrict(s) == Some(a)
  {
    forall a: Address4 | s == Format(a) ensures ParseStrict(s) == Some(a) {
      ParseStrictFormat(a);
    }
  }
}
