/**
 * `normalize_site` (run.py:305-328): trims the cell, treats blank, "n/a" and
 * "na" as no site, and otherwise maps the lower-cased, de-hyphenated,
 * whitespace-collapsed text through a fixed alias table, upper-casing it when
 * it is not an alias.
 */
module Site {
  import opened Wrappers
  import opened Text
  import opened Records

  /** The alias table of run.py:316-325. */
  const Aliases: map<string, string> := map[
    "blr campus" := "BLR CAMPUS",
    "blr" := "BLR CAMPUS",
    "hq bldg 1" := "HQ BLDG 1",
    "hq building 1" := "HQ BLDG 1",
    "hq" := "HQ",
    "lab 1" := "LAB 1",
    "lab-1" := "LAB 1",
    "dc 1" := "DC 1"]

  /**
   * The lookup key of run.py:314-315: lower-cased, '-' replaced by ' ', every
   * run of whitespace collapsed to one space, then trimmed.
   */
  function SiteKey(site: string): string
  {
    Strip(CollapseSpaces(ReplaceChar(Lower(site), '-', ' ')))
  }

  /** `mapping.get(key, key.upper())` */
  function Lookup(key: string): string
  {
    if key in Aliases then Aliases[key] else Upper(key)
  }

  /** The tuple `normalize_site` returns: site, site_normalized, steps. */
  datatype SiteResult = SiteResult(site: string, normalized: string, steps: seq<Step>)

  /** `normalize_site(site_raw)`, `None` for a missing cell. */
  function NormalizeSite(siteRaw: Option<string>): SiteResult
  {
    match siteRaw
    case None => SiteResult("", "", [])
    case Some(raw) =>
      var site := Strip(raw);
      if site == "" || Lower(site) in {"n/a", "na"} then SiteResult(site, "", [])
      else SiteResult(site, Lookup(SiteKey(site)), [SiteTrim, SiteNormalize])
  }

  // ---------------------------------------------------------------------------
  // Properties

  /** A site text in normal form: no '-', trimmed, single plain spaces only. */
  predicate WellSpaced(s: string)
  {
    '-' !in s && Trimmed(s) && NoDoubleSpace(s) && OnlyPlainSpaces(s)
  }

  /** A character a key can hold: neither '-' nor upper case. */
  predicate KeyChar(c: char)
  {
    c != '-' && !IsUpper(c)
  }

  lemma KeyCharsOfReplace(l: string)
    requires NoUpper(l)
    ensures forall ch :: ch in ReplaceChar(l, '-', ' ') ==> KeyChar(ch)
  {
    var rep := ReplaceChar(l, '-', ' ');
    forall ch | ch in rep ensures KeyChar(ch) {
      var m :| 0 <= m < |rep| && rep[m] == ch;
    }
  }

  lemma KeyCharsOfCollapse(s: string)
    requires forall ch :: ch in s ==> KeyChar(ch)
    ensures forall ch :: ch in CollapseSpaces(s) ==> KeyChar(ch)
  {
    CollapseChars(s);
  }

  /** Every key is well spaced and lower case; in particular none is "lab-1". */
  lemma SiteKeyShape(site: string)
    ensures WellSpaced(SiteKey(site)) && NoUpper(SiteKey(site))
    ensures SiteKey(site) != "lab-1"
  {
    var rep := ReplaceChar(Lower(site), '-', ' ');
    var c := CollapseSpaces(rep);
    var k := Strip(c);
    KeyCharsOfReplace(Lower(site));
    KeyCharsOfCollapse(rep);
    StripKeepsSpacing(c);
    assert forall i :: 0 <= i < |k| ==> KeyChar(k[i]) by {
      forall i | 0 <= i < |k| ensures KeyChar(k[i]) {
        assert k[i] in k;
      }
    }
    assert "lab-1"[3] == '-';
  }

  /** The key of an upper-cased well-spaced lower-case text is that text. */
  lemma SiteKeyOfUpper(k: string)
    requires WellSpaced(k) && NoUpper(k)
    ensures SiteKey(Upper(k)) == k
  {
    LowerUpperOfLowerCase(k);
    assert ReplaceChar(k, '-', ' ') == k;
    CollapseOfCollapsed(k);
    StripOfTrimmed(k);
  }

  /** The upper-cased form of a well-spaced text is well spaced. */
  lemma UpperKeepsSpacing(k: string)
    requires WellSpaced(k)
    ensures WellSpaced(Upper(k))
  {
    var u := Upper(k);
    assert forall i :: 0 <= i < |u| ==> IsSpace(u[i]) == IsSpace(k[i]) && (u[i] == '-' <==> k[i] == '-');
  }

  /** An alias value is the upper-cased form of its own lower-cased key, which is well spaced. */
  predicate CanonicalAlias(v: string)
  {
    Lower(v) in Aliases && Aliases[Lower(v)] == v && Upper(Lower(v)) == v && WellSpaced(Lower(v)) && NoUpper(Lower(v))
  }

  lemma CanonicalAliasOf(v: string, k: string)
    requires k in Aliases && Aliases[k] == v && Lower(v) == k && Upper(k) == v && WellSpaced(k)
    ensures CanonicalAlias(v)
  {
  }

  lemma AliasBlrCampus() ensures CanonicalAlias("BLR CAMPUS") { CanonicalAliasOf("BLR CAMPUS", "blr campus"); }
  lemma AliasHqBldg1() ensures CanonicalAlias("HQ BLDG 1") { CanonicalAliasOf("HQ BLDG 1", "hq bldg 1"); }
  lemma AliasHq() ensures CanonicalAlias("HQ") { CanonicalAliasOf("HQ", "hq"); }
  lemma AliasLab1() ensures CanonicalAlias("LAB 1") { CanonicalAliasOf("LAB 1", "lab 1"); }
  lemma AliasDc1() ensures CanonicalAlias("DC 1") { CanonicalAliasOf("DC 1", "dc 1"); }

  lemma AliasValueSet(key: string)
    requires key in Aliases
    ensures Aliases[key] in {"BLR CAMPUS", "HQ BLDG 1", "HQ", "LAB 1", "DC 1"}
  {
  }

  /** Every alias value is canonical. */
  lemma AliasValues(key: string)
    requires key in Aliases
    ensures CanonicalAlias(Aliases[key])
  {
    AliasValueSet(key);
    AliasBlrCampus();
    AliasHqBldg1();
    AliasHq();
    AliasLab1();
    AliasDc1();
  }

  /**
   * The site column is the trimmed cell. The normalized value is "" with no
   * steps for an absent, blank, "n/a" or "na" cell, and otherwise the alias of
   * the key or the key upper-cased; either way it has no '-', no whitespace at
   * the ends and no two whitespace characters in a row.
   */
  lemma NormalizeSiteShape(siteRaw: Option<string>)
    ensures var r := NormalizeSite(siteRaw);
      r.site == (if siteRaw.Some? then Strip(siteRaw.value) else "")
    ensures var r := NormalizeSite(siteRaw);
      r.normalized == "" && r.steps == [] <==>
        siteRaw.None? || Strip(siteRaw.value) == "" || Lower(Strip(siteRaw.value)) in {"n/a", "na"}
    ensures var r := NormalizeSite(siteRaw);
      r.steps != [] ==>
        var key := SiteKey(r.site);
        r.steps == [SiteTrim, SiteNormalize] &&
        (if key in Aliases then r.normalized == Aliases[key] else r.normalized == Upper(key))
    ensures WellSpaced(NormalizeSite(siteRaw).normalized)
  {
    if siteRaw.Some? {
      var site := Strip(siteRaw.value);
      if !(site == "" || Lower(site) in {"n/a", "na"}) {
        var key := SiteKey(site);
        assert NormalizeSite(siteRaw) == SiteResult(site, Lookup(key), [SiteTrim, SiteNormalize]);
        LookupWellSpaced(site);
      }
    }
  }

  /** The looked-up value of a key is well spaced. */
  lemma LookupWellSpaced(site: string)
    ensures WellSpaced(Lookup(SiteKey(site)))
  {
    var key := SiteKey(site);
    SiteKeyShape(site);
    if key in Aliases {
      AliasWellSpaced(key);
    } else {
      UpperKeepsSpacing(key);
    }
  }

  lemma AliasWellSpaced(key: string)
    requires key in Aliases
    ensures WellSpaced(Aliases[key])
  {
    AliasValues(key);
    UpperKeepsSpacing(Lower(Aliases[key]));
  }

  /** The "lab-1" alias can never be looked up: no key contains '-'. */
  lemma LabHyphenUnreachable()
    ensures forall site :: SiteKey(site) != "lab-1"
  {
    forall site ensures SiteKey(site) != "lab-1" {
      SiteKeyShape(site);
    }
  }

  /**
   * Normalizing a normalized value again gives it back, unless it is empty or
   * reads as one of the placeholders (a cell "-na" normalizes to "NA").
   */
  lemma NormalizeSiteIdempotent(siteRaw: Option<string>)
    requires var n := NormalizeSite(siteRaw).normalized; n != "" && Lower(n) !in {"n/a", "na"}
    ensures var n := NormalizeSite(siteRaw).normalized; NormalizeSite(Some(n)).normalized == n
  {
    var r := NormalizeSite(siteRaw);
    var n := r.normalized;
    NormalizeSiteShape(siteRaw);
    StripOfTrimmed(n);
    var key := SiteKey(r.site);
    SiteKeyShape(r.site);
    if key in Aliases {
      AliasValues(key);
      SiteKeyOfUpper(Lower(n));
    } else {
      SiteKeyOfUpper(key);
    }
  }
}
