/**
 * `valid_label` with `HOST_LABEL_RE` (run.py:20, 176-177) and
 * `normalize_names` (run.py:180-222): the hostname and FQDN columns are
 * trimmed and lower-cased, checked against the one-label host name syntax, the
 * hostname is taken from the FQDN's first label when missing, and the two are
 * compared.
 */
module Names {
  import opened Wrappers
  import opened Text
  import opened Records

  predicate IsLabelChar(c: char) { IsAlnum(c) || c == '-' }

  /**
   * The host name label of section 2.1 of RFC 1123: 1 to 63 letters, digits
   * and hyphens, beginning and ending with a letter or digit. This is what
   * `^[a-z0-9]([a-z0-9-]{0,61}[a-z0-9])?` matches, case-insensitively.
   */
  predicate LabelSyntax(l: string)
  {
    1 <= |l| <= 63 && IsAlnum(l[0]) && IsAlnum(l[|l| - 1]) &&
    forall i :: 0 < i < |l| - 1 ==> IsLabelChar(l[i])
  }

  /**
   * `valid_label(label)`: `HOST_LABEL_RE.match(label)`. Python's `$` also
   * matches just before a final newline, so a label followed by one '\n' passes.
   */
  predicate ValidLabel(l: string)
  {
    LabelSyntax(l) || (|l| >= 2 && l[|l| - 1] == '\n' && LabelSyntax(l[..|l| - 1]))
  }

  /** A valid label has no '.' and no whitespace other than that final newline. */
  lemma ValidLabelChars(l: string)
    requires ValidLabel(l)
    ensures l != [] && IsAlnum(l[0]) && '.' !in l
    ensures '\n' !in l ==> LabelSyntax(l) && Trimmed(l) && forall i :: 0 <= i < |l| ==> IsLabelChar(l[i])
  {
    if !LabelSyntax(l) {
      var m := l[..|l| - 1];
      assert forall i :: 0 <= i < |l| - 1 ==> l[i] == m[i];
      assert '\n' in l by { assert l[|l| - 1] == '\n'; }
    }
  }

  /** The FQDN rule of run.py:202-203: at least two '.'-separated labels, all valid. */
  predicate ValidFqdn(f: string)
  {
    var labels := Split(f, '.');
    |labels| >= 2 && forall k :: 0 <= k < |labels| ==> ValidLabel(labels[k])
  }

  /** `x.strip() if x else ""`: an absent or empty cell gives "". */
  function TrimOrEmpty(x: Option<string>): (r: string)
    ensures Trimmed(r)
  {
    if x.Some? && x.value != "" then Strip(x.value) else ""
  }

  /** The raw cell as an issue's `value` shows it. */
  function RawValue(x: Option<string>): string
  {
    match x
    case Some(v) => v
    case None => ""
  }

  /** The tuple `normalize_names` returns. */
  datatype NamesResult = NamesResult(
    hostname: string, hostnameValid: string, fqdn: string, fqdnConsistent: string,
    steps: seq<Step>, issues: seq<Issue>)

  /** `normalize_names(hostname_raw, fqdn_raw)`, `None` for a missing cell. */
  function NormalizeNames(hostnameRaw: Option<string>, fqdnRaw: Option<string>): NamesResult
  {
    NamesFromTrimmed(TrimOrEmpty(hostnameRaw), TrimOrEmpty(fqdnRaw), RawValue(hostnameRaw), RawValue(fqdnRaw))
  }

  /**
   * run.py:185-222 once the two cells are trimmed to `host0` and `fqdn0`;
   * `hostRaw` and `fqdnRaw` are the raw cells quoted in issues.
   */
  function NamesFromTrimmed(host0: string, fqdn0: string, hostRaw: string, fqdnRaw: string): NamesResult
  {
    // run.py:188-194
    var hostname1 := if host0 != "" then Lower(host0) else "";
    var hostValid1 := if host0 == "" then "" else if ValidLabel(hostname1) then "true" else "false";
    var steps1 := if host0 != "" then [HostnameTrim, HostnameLower] else [];
    var issues1 := if hostValid1 == "false" then [Issue("hostname", "invalid_label", hostRaw, None)] else [];
    // run.py:196-207
    var fqdnOut := if fqdn0 != "" then Lower(fqdn0) else "";
    var labels := if fqdn0 != "" then Split(fqdnOut, '.') else [];
    var fqdnValid := fqdn0 != "" && ValidFqdn(fqdnOut);
    var steps2 := steps1 + (if fqdn0 != "" then [FqdnTrim, FqdnLower] else []);
    var issues2 := issues1 + (if fqdn0 != "" && !fqdnValid then [Issue("fqdn", "invalid_format", fqdnRaw, None)] else []);
    // run.py:209-212
    var fromFqdn := hostname1 == "" && fqdnValid;
    var hostname := if fromFqdn then labels[0] else hostname1;
    var hostValid := if fromFqdn then "true" else hostValid1;
    var steps := steps2 + (if fromFqdn then [HostnameFromFqdn] else []);
    // run.py:214-220
    var compared := hostname != "" && fqdnOut != "";
    var consistent :=
      if !compared then ""
      else if fqdnValid && labels != [] then (if hostname == labels[0] then "true" else "false")
      else "false";
    var mismatch := compared && fqdnValid && labels != [] && hostname != labels[0];
    var issues := issues2 + (if mismatch then [Issue("fqdn", "hostname_mismatch", fqdnRaw, None)] else []);
    NamesResult(hostname, hostValid, fqdnOut, consistent, steps, issues)
  }

  // ---------------------------------------------------------------------------
  // Properties

  /** The empty text is no FQDN: it splits into one empty label. */
  lemma EmptyIsNoFqdn()
    ensures !ValidFqdn("")
  {
    SplitNone("", '.');
  }

  /**
   * `hostname_valid` is "" exactly when no hostname results, and "true"
   * exactly when the resulting hostname is a valid label.
   */
  lemma HostnameValidIff(host0: string, fqdn0: string, hostRaw: string, fqdnRaw: string)
    ensures var r := NamesFromTrimmed(host0, fqdn0, hostRaw, fqdnRaw);
      IsTernary(r.hostnameValid) &&
      (r.hostnameValid == "" <==> r.hostname == "") &&
      (r.hostnameValid == "true" <==> r.hostname != "" && ValidLabel(r.hostname))
  {
    if host0 == "" && fqdn0 != "" && ValidFqdn(Lower(fqdn0)) {
      ValidLabelChars(Split(Lower(fqdn0), '.')[0]);
    }
  }

  /**
   * `fqdn_consistent` is "" exactly when the hostname or the FQDN is empty, and
   * "true" exactly when the FQDN is valid and its first label is the hostname.
   */
  lemma FqdnConsistentIff(host0: string, fqdn0: string, hostRaw: string, fqdnRaw: string)
    ensures var r := NamesFromTrimmed(host0, fqdn0, hostRaw, fqdnRaw);
      IsTernary(r.fqdnConsistent) &&
      (r.fqdnConsistent == "" <==> r.hostname == "" || r.fqdn == "") &&
      (r.fqdnConsistent == "true" <==> r.hostname != "" && ValidFqdn(r.fqdn) && r.hostname == Split(r.fqdn, '.')[0])
  {
    EmptyIsNoFqdn();
    HostnameValidIff(host0, fqdn0, hostRaw, fqdnRaw);
  }

  /**
   * The FQDN column is the lower-cased trimmed cell. The hostname is the
   * lower-cased trimmed hostname cell when that is not blank; otherwise it
   * comes from the FQDN (step `hostname_from_fqdn`) exactly when the FQDN is
   * valid, and is then the FQDN's first label, valid and consistent.
   */
  lemma HostnameSource(host0: string, fqdn0: string, hostRaw: string, fqdnRaw: string)
    ensures var r := NamesFromTrimmed(host0, fqdn0, hostRaw, fqdnRaw);
      r.fqdn == Lower(fqdn0) && (host0 != "" ==> r.hostname == Lower(host0))
    ensures var r := NamesFromTrimmed(host0, fqdn0, hostRaw, fqdnRaw);
      HostnameFromFqdn in r.steps <==> host0 == "" && ValidFqdn(r.fqdn)
    ensures var r := NamesFromTrimmed(host0, fqdn0, hostRaw, fqdnRaw);
      HostnameFromFqdn in r.steps ==>
        r.hostname == Split(r.fqdn, '.')[0] && r.hostnameValid == "true" && r.fqdnConsistent == "true"
  {
    EmptyIsNoFqdn();
    if host0 == "" && fqdn0 != "" && ValidFqdn(Lower(fqdn0)) {
      ValidLabelChars(Split(Lower(fqdn0), '.')[0]);
    } else if host0 == "" {
      assert Lower(fqdn0) == "" ==> fqdn0 == "";
    }
  }

  /**
   * The issues: `invalid_label` exactly when `hostname_valid` is "false",
   * `invalid_format` exactly when a non-blank FQDN is not valid, and
   * `hostname_mismatch` exactly when a valid FQDN's first label differs from the
   * hostname; each quotes the raw cell of its field, and there are no others.
   */
  lemma NamesIssues(host0: string, fqdn0: string, hostRaw: string, fqdnRaw: string)
    ensures var r := NamesFromTrimmed(host0, fqdn0, hostRaw, fqdnRaw);
      (Issue("hostname", "invalid_label", hostRaw, None) in r.issues <==> r.hostnameValid == "false") &&
      (Issue("fqdn", "invalid_format", fqdnRaw, None) in r.issues <==> r.fqdn != "" && !ValidFqdn(r.fqdn)) &&
      (Issue("fqdn", "hostname_mismatch", fqdnRaw, None) in r.issues <==>
        r.hostname != "" && ValidFqdn(r.fqdn) && r.hostname != Split(r.fqdn, '.')[0]) &&
      |r.issues| <= 2 &&
      forall k :: 0 <= k < |r.issues| ==>
        r.issues[k] in [Issue("hostname", "invalid_label", hostRaw, None),
                        Issue("fqdn", "invalid_format", fqdnRaw, None),
                        Issue("fqdn", "hostname_mismatch", fqdnRaw, None)]
  {
    EmptyIsNoFqdn();
    HostnameValidIff(host0, fqdn0, hostRaw, fqdnRaw);
  }

  /**
   * On already trimmed cells, the normalized hostname and FQDN are trimmed and
   * normalizing them again changes neither them nor the two flags.
   */
  lemma NamesFromTrimmedIdempotent(host0: string, fqdn0: string, hostRaw: string, fqdnRaw: string, hostRaw2: string, fqdnRaw2: string)
    requires Trimmed(host0) && Trimmed(fqdn0)
    requires '\n' !in NamesFromTrimmed(host0, fqdn0, hostRaw, fqdnRaw).hostname
    ensures var r := NamesFromTrimmed(host0, fqdn0, hostRaw, fqdnRaw);
      Trimmed(r.hostname) && Trimmed(r.fqdn)
    ensures var r := NamesFromTrimmed(host0, fqdn0, hostRaw, fqdnRaw);
      var r2 := NamesFromTrimmed(r.hostname, r.fqdn, hostRaw2, fqdnRaw2);
      r2.hostname == r.hostname && r2.fqdn == r.fqdn &&
      r2.hostnameValid == r.hostnameValid && r2.fqdnConsistent == r.fqdnConsistent
  {
    var r := NamesFromTrimmed(host0, fqdn0, hostRaw, fqdnRaw);
    HostnameSource(host0, fqdn0, hostRaw, fqdnRaw);
    HostnameValidIff(host0, fqdn0, hostRaw, fqdnRaw);
    FqdnConsistentIff(host0, fqdn0, hostRaw, fqdnRaw);
    LowerPreservesTrimmed(fqdn0);
    LowerOfLowerCase(r.fqdn);
    if host0 != "" {
      LowerPreservesTrimmed(host0);
      LowerOfLowerCase(Lower(host0));
    } else if r.hostname != "" {
      var l := Split(r.fqdn, '.')[0];
      assert r.hostname == l;
      ValidLabelChars(l);
      SplitFirst(r.fqdn, '.');
      assert NoUpper(l);
      LowerOfLowerCase(l);
    }
    HostnameSource(r.hostname, r.fqdn, hostRaw2, fqdnRaw2);
    HostnameValidIff(r.hostname, r.fqdn, hostRaw2, fqdnRaw2);
    FqdnConsistentIff(r.hostname, r.fqdn, hostRaw2, fqdnRaw2);
  }

  /**
   * Normalizing the normalized hostname and FQDN again changes neither them nor
   * the two flags. (A first FQDN label ending in the newline that `$` tolerates
   * would lose it on the second pass, hence the precondition.)
   */
  lemma NamesIdempotent(hostnameRaw: Option<string>, fqdnRaw: Option<string>)
    requires '\n' !in NormalizeNames(hostnameRaw, fqdnRaw).hostname
    ensures var r := NormalizeNames(hostnameRaw, fqdnRaw);
      var r2 := NormalizeNames(Some(r.hostname), Some(r.fqdn));
      r2.hostname == r.hostname && r2.fqdn == r.fqdn &&
      r2.hostnameValid == r.hostnameValid && r2.fqdnConsistent == r.fqdnConsistent
  {
    var host0 := TrimOrEmpty(hostnameRaw);
    var fqdn0 := TrimOrEmpty(fqdnRaw);
    var r := NamesFromTrimmed(host0, fqdn0, RawValue(hostnameRaw), RawValue(fqdnRaw));
    assert NormalizeNames(hostnameRaw, fqdnRaw) == r;
    NamesFromTrimmedIdempotent(host0, fqdn0, RawValue(hostnameRaw), RawValue(fqdnRaw), r.hostname, r.fqdn);
    TrimmedCells(r.hostname, r.fqdn);
  }

  /** Trimmed cells reach the comparison unchanged. */
  lemma TrimmedCells(h: string, f: string)
    requires Trimmed(h) && Trimmed(f)
    ensures NormalizeNames(Some(h), Some(f)) == NamesFromTrimmed(h, f, h, f)
  {
    StripOfTrimmed(h);
    StripOfTrimmed(f);
    assert TrimOrEmpty(Some(h)) == h;
    assert TrimOrEmpty(Some(f)) == f;
  }
}
