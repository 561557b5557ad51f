/**
 * The values the normalizers exchange: the closed vocabulary of step tokens,
 * issue records, the raw input row and the two outputs of a row (the cleaned
 * record, run.py:46-67, and the anomaly record, run.py:391-397).
 */
module Records {
  import opened Wrappers

  /** Every step token any normalizer appends (the string literals of run.py:130-328 and 371). */
  datatype Step =
    | IpMissing | IpTrim | IpDropZone | IpParseRelaxed | IpInvalidParse | IpParse | IpNormalize
    | IpReservedEdge
    | HostnameTrim | HostnameLower | FqdnTrim | FqdnLower | HostnameFromFqdn
    | ReversePtrBuild
    | MacMissing | MacTrim | MacHexExtract | MacNormalize
    | OwnerTrim | OwnerEmailExtract | OwnerTeamParen | OwnerFromEmailLocalpart
    | DeviceFromInput | DeviceInferred
    | SiteTrim | SiteNormalize

  /** The literal text of a step token. */
  function Token(s: Step): string
  {
    match s
    case IpMissing => "ip_missing"
    case IpTrim => "ip_trim"
    case IpDropZone => "ip_drop_zone"
    case IpParseRelaxed => "ip_parse_relaxed"
    case IpInvalidParse => "ip_invalid_parse"
    case IpParse => "ip_parse"
    case IpNormalize => "ip_normalize"
    case IpReservedEdge => "ip_reserved_edge"
    case HostnameTrim => "hostname_trim"
    case HostnameLower => "hostname_lower"
    case FqdnTrim => "fqdn_trim"
    case FqdnLower => "fqdn_lower"
    case HostnameFromFqdn => "hostname_from_fqdn"
    case ReversePtrBuild => "reverse_ptr_build"
    case MacMissing => "mac_missing"
    case MacTrim => "mac_trim"
    case MacHexExtract => "mac_hex_extract"
    case MacNormalize => "mac_normalize"
    case OwnerTrim => "owner_trim"
    case OwnerEmailExtract => "owner_email_extract"
    case OwnerTeamParen => "owner_team_paren"
    case OwnerFromEmailLocalpart => "owner_from_email_localpart"
    case DeviceFromInput => "device_from_input"
    case DeviceInferred => "device_inferred"
    case SiteTrim => "site_trim"
    case SiteNormalize => "site_normalize"
  }

  /** The token texts of a list of steps, in order. */
  function Tokens(steps: seq<Step>): (r: seq<string>)
    ensures |r| == |steps| && forall i :: 0 <= i < |steps| ==> r[i] == Token(steps[i])
  {
    seq(|steps|, i requires 0 <= i < |steps| => Token(steps[i]))
  }

  /** Every token is non-empty and free of the `|` that joins the tokens of a row. */
  lemma TokenShape(s: Step)
    ensures Token(s) != "" && '|' !in Token(s)
  {
    match s
    case IpMissing => assert '|' !in "ip_missing";
    case IpTrim => assert '|' !in "ip_trim";
    case IpDropZone => assert '|' !in "ip_drop_zone";
    case IpParseRelaxed => assert '|' !in "ip_parse_relaxed";
    case IpInvalidParse => assert '|' !in "ip_invalid_parse";
    case IpParse => assert '|' !in "ip_parse";
    case IpNormalize => assert '|' !in "ip_normalize";
    case IpReservedEdge => assert '|' !in "ip_reserved_edge";
    case HostnameTrim => assert '|' !in "hostname_trim";
    case HostnameLower => assert '|' !in "hostname_lower";
    case FqdnTrim => assert '|' !in "fqdn_trim";
    case FqdnLower => assert '|' !in "fqdn_lower";
    case HostnameFromFqdn => assert '|' !in "hostname_from_fqdn";
    case ReversePtrBuild => assert '|' !in "reverse_ptr_build";
    case MacMissing => assert '|' !in "mac_missing";
    case MacTrim => assert '|' !in "mac_trim";
    case MacHexExtract => assert '|' !in "mac_hex_extract";
    case MacNormalize => assert '|' !in "mac_normalize";
    case OwnerTrim => assert '|' !in "owner_trim";
    case OwnerEmailExtract => assert '|' !in "owner_email_extract";
    case OwnerTeamParen => assert '|' !in "owner_team_paren";
    case OwnerFromEmailLocalpart => assert '|' !in "owner_from_email_localpart";
    case DeviceFromInput => assert '|' !in "device_from_input";
    case DeviceInferred => assert '|' !in "device_inferred";
    case SiteTrim => assert '|' !in "site_trim";
    case SiteNormalize => assert '|' !in "site_normalize";
  }

  /** Distinct steps have distinct tokens, so the tokens are a faithful encoding of the vocabulary. */
  lemma TokenInjective(a: Step, b: Step)
    requires Token(a) == Token(b)
    ensures a == b
  {
    assert Token(a)[..|Token(a)|] == Token(b)[..|Token(b)|];
  }

  /** One data-quality defect: the dictionary `{"field", "type", "value"[, "detail"]}`. */
  datatype Issue = Issue(field: string, kind: string, value: string, detail: Option<string>)

  /** The raw input row: each column's value, `None` when the reader supplied none. */
  datatype RawRow = RawRow(
    ip: Option<string>,
    hostname: Option<string>,
    fqdn: Option<string>,
    mac: Option<string>,
    owner: Option<string>,
    deviceType: Option<string>,
    site: Option<string>,
    notes: Option<string>,
    sourceRowId: Option<string>)

  /** The cleaned output row, its 20 columns in the order of `FIELDNAMES` (run.py:22-43). */
  datatype CleanRecord = CleanRecord(
    ip: string,
    ipValid: string,
    ipVersion: string,
    subnetCidr: string,
    hostname: string,
    hostnameValid: string,
    fqdn: string,
    fqdnConsistent: string,
    reversePtr: string,
    mac: string,
    macValid: string,
    owner: string,
    ownerEmail: string,
    ownerTeam: string,
    deviceType: string,
    deviceTypeConfidence: string,
    site: string,
    siteNormalized: string,
    sourceRowId: string,
    normalizationSteps: string)

  /** The anomaly report entry of a row with at least one issue. */
  datatype AnomalyRecord = AnomalyRecord(
    sourceRowId: Option<string>,
    issues: seq<Issue>,
    recommendedActions: seq<string>)

  /** The three values of a validity column: valid, invalid, or absent input. */
  predicate IsTernary(v: string)
  {
    v == "" || v == "true" || v == "false"
  }
}
