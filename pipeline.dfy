/**
 * The per-row body of `process` (run.py:354-420) and the loop over the rows:
 * each normalizer's result goes into the cleaned record, their steps into
 * the `normalization_steps` column and their issues into an anomaly record.
 */
module Pipeline {
  import opened Wrappers
  import opened Text
  import opened Dedup
  import opened Records
  import opened IPv4
  import opened IpNormalizer
  import opened Names
  import opened Mac
  import opened Owner
  import opened Device
  import opened Site
  import opened Recommend

  /** What one row yields: its cleaned record and, when it has issues, its anomaly record. */
  datatype RowOutput = RowOutput(record: CleanRecord, anomaly: Option<AnomalyRecord>)

  /** The results of the normalizers on one row, in the order `process` calls them. */
  datatype RowParts = RowParts(
    ip: IpResult, names: NamesResult, reversePtr: string, reverseSteps: seq<Step>,
    mac: MacResult, owner: OwnerResult, device: DeviceResult, site: SiteResult,
    sourceRowId: Option<string>)

  /** run.py:367-373: the reverse pointer of a valid address, and its step when it could be built. */
  function ReverseOf(lib: IPv6Library, ip: IpResult): (string, seq<Step>)
  {
    if ip.valid == "true" then
      match ReversePointerOf(lib, ip.ip)
      case Some(p) => (p, [ReversePtrBuild])
      case None => ("", [])
    else ("", [])
  }

  function Parts(lib: IPv6Library, row: RawRow): RowParts
  {
    var ip := NormalizeIp(lib, row.ip);
    var names := NormalizeNames(row.hostname, row.fqdn);
    var (rev, revSteps) := ReverseOf(lib, ip);
    RowParts(ip, names, rev, revSteps, NormalizeMac(row.mac), ParseOwner(row.owner),
             NormalizeDeviceType(row.deviceType, names.hostname, row.notes),
             NormalizeSite(row.site), row.sourceRowId)
  }

  /** `row_steps`: every normalizer's steps, in call order. */
  function RowSteps(p: RowParts): seq<Step>
  {
    p.ip.steps + p.names.steps + p.reverseSteps + p.mac.steps + p.owner.steps + p.device.steps + p.site.steps
  }

  /** `row_issues`: the issues of the IP, name and MAC normalizers, in call order. */
  function RowIssues(p: RowParts): seq<Issue>
  {
    p.ip.issues + p.names.issues + p.mac.issues
  }

  /** `"|".join(uniq(row_steps))` */
  function StepsColumn(steps: seq<Step>): string
  {
    Join(Deduplicated(Tokens(steps)), "|")
  }

  function Assemble(p: RowParts): RowOutput
  {
    var issues := RowIssues(p);
    var anomaly := if issues != [] then Some(AnomalyRecord(p.sourceRowId, issues, Recommendations(issues))) else None;
    var record := CleanRecord(
      p.ip.ip, p.ip.valid, p.ip.version, p.ip.subnet,
      p.names.hostname, p.names.hostnameValid, p.names.fqdn, p.names.fqdnConsistent,
      p.reversePtr, p.mac.mac, p.mac.valid,
      p.owner.owner, p.owner.email, p.owner.team,
      p.device.deviceType, p.device.confidence,
      if p.site.site != "" then Strip(p.site.site) else "", p.site.normalized,
      if p.sourceRowId.Some? then p.sourceRowId.value else "",
      StepsColumn(RowSteps(p)));
    RowOutput(record, anomaly)
  }

  /** One iteration of the loop of `process`. */
  function ProcessRow(lib: IPv6Library, row: RawRow): RowOutput
  {
    Assemble(Parts(lib, row))
  }

  /** `ProcessRow` as a value, for the loop over the rows. */
  function RowProcessor(lib: IPv6Library): RawRow -> RowOutput
  {
    row => ProcessRow(lib, row)
  }

  /** `f` applied to every row, in row order. */
  function MapRows(f: RawRow -> RowOutput, rows: seq<RawRow>): (r: seq<RowOutput>)
    ensures |r| == |rows|
    decreases |rows|
  {
    if rows == [] then [] else MapRows(f, rows[..|rows| - 1]) + [f(rows[|rows| - 1])]
  }

  /** The outputs of the rows, in row order. */
  function Outputs(lib: IPv6Library, rows: seq<RawRow>): (r: seq<RowOutput>)
    ensures |r| == |rows|
  {
    MapRows(RowProcessor(lib), rows)
  }

  /** The records `process` writes, one per output. */
  function RecordsOf(outs: seq<RowOutput>): (r: seq<CleanRecord>)
    ensures |r| == |outs| && forall i :: 0 <= i < |outs| ==> r[i] == outs[i].record
    decreases |outs|
  {
    if outs == [] then [] else RecordsOf(outs[..|outs| - 1]) + [outs[|outs| - 1].record]
  }

  /** The anomaly list `process` dumps: the anomaly records of the outputs that have one, in order. */
  function AnomaliesOf(outs: seq<RowOutput>): (r: seq<AnomalyRecord>)
    ensures |r| <= |outs|
    decreases |outs|
  {
    if outs == [] then []
    else
      var last := outs[|outs| - 1].anomaly;
      AnomaliesOf(outs[..|outs| - 1]) + (if last.Some? then [last.value] else [])
  }

  lemma MapRowsExtend(f: RawRow -> RowOutput, rows: seq<RawRow>, i: nat)
    requires i < |rows|
    ensures MapRows(f, rows[..i + 1]) == MapRows(f, rows[..i]) + [f(rows[i])]
  {
    assert rows[..i + 1][..i] == rows[..i];
  }

  lemma {:induction false} RecordsOfAppend(outs: seq<RowOutput>, o: RowOutput)
    ensures RecordsOf(outs + [o]) == RecordsOf(outs) + [o.record]
  {
    assert (outs + [o])[..|outs|] == outs;
  }

  lemma {:induction false} AnomaliesOfAppend(outs: seq<RowOutput>, o: RowOutput)
    ensures AnomaliesOf(outs + [o]) == AnomaliesOf(outs) + (if o.anomaly.Some? then [o.anomaly.value] else [])
  {
    assert (outs + [o])[..|outs|] == outs;
  }

  /**
   * The loop of `process` with the row body `f`: one record per row, and the
   * anomaly of each row that has one, in row order.
   */
  method CollectRows(f: RawRow -> RowOutput, rows: seq<RawRow>) returns (records: seq<CleanRecord>, anomalies: seq<AnomalyRecord>)
    ensures records == RecordsOf(MapRows(f, rows))
    ensures anomalies == AnomaliesOf(MapRows(f, rows))
  {
    records := [];
    anomalies := [];
    for i := 0 to |rows|
      invariant records == RecordsOf(MapRows(f, rows[..i]))
      invariant anomalies == AnomaliesOf(MapRows(f, rows[..i]))
    {
      var out := f(rows[i]);
      MapRowsExtend(f, rows, i);
      RecordsOfAppend(MapRows(f, rows[..i]), out);
      AnomaliesOfAppend(MapRows(f, rows[..i]), out);
      if out.anomaly.Some? {
        anomalies := anomalies + [out.anomaly.value];
      }
      records := records + [out.record];
    }
    assert rows[..|rows|] == rows;
  }

  /** `process`: the loop over the rows, writing each record and collecting the anomalies. */
  method Process(lib: IPv6Library, rows: seq<RawRow>) returns (records: seq<CleanRecord>, anomalies: seq<AnomalyRecord>)
    ensures records == RecordsOf(Outputs(lib, rows))
    ensures anomalies == AnomaliesOf(Outputs(lib, rows))
  {
    records, anomalies := CollectRows(RowProcessor(lib), rows);
  }

  // ---------------------------------------------------------------------------
  // Properties

  /** Joining the distinct tokens of a row with '|' can be split back into them. */
  lemma StepsColumnSplits(steps: seq<Step>)
    ensures StepsColumn(steps) == "" <==> steps == []
    ensures steps != [] ==> Split(StepsColumn(steps), '|') == Deduplicated(Tokens(steps))
  {
    var toks := Tokens(steps);
    var ts := Deduplicated(toks);
    DeduplicatedElements(toks);
    forall i | 0 <= i < |steps| ensures Token(steps[i]) != "" && '|' !in Token(steps[i]) {
      TokenShape(steps[i]);
    }
    forall t | t in ts ensures '|' !in t {
      var i :| 0 <= i < |toks| && toks[i] == t;
    }
    if steps != [] {
      assert toks[0] in ts;
      SplitJoin(ts, '|');
      assert ts[0] in ts;
      assert Join(ts, "|") == (if |ts| == 1 then ts[0] else ts[0] + "|" + Join(ts[1..], "|"));
      assert |Join(ts, "|")| >= |ts[0]|;
    }
  }

  /**
   * The steps column splits back on '|' into the distinct step tokens of the
   * row, each once, in the order of first occurrence; it is empty only for a
   * row without steps.
   */
  lemma StepsColumnSpec(steps: seq<Step>)
    ensures StepsColumn(steps) == "" <==> steps == []
    ensures var ts := Deduplicated(Tokens(steps));
      steps != [] ==> Split(StepsColumn(steps), '|') == ts && NoDuplicates(ts) &&
                      (forall t :: t in ts <==> exists i :: 0 <= i < |steps| && t == Token(steps[i])) &&
                      (forall t :: t in ts ==> t in Tokens(steps)) &&
                      (forall i, j :: 0 <= i < j < |ts| ==> FirstIndex(Tokens(steps), ts[i]) < FirstIndex(Tokens(steps), ts[j]))
  {
    var toks := Tokens(steps);
    StepsColumnSplits(steps);
    DeduplicatedElements(toks);
    DeduplicatedOrder(toks);
    forall t | t in toks ensures t != "" {
      var i :| 0 <= i < |toks| && toks[i] == t;
      TokenShape(steps[i]);
    }
  }

  /**
   * A row has an anomaly record exactly when it has issues; the record
   * carries the row's id, all of its issues in order, and their
   * recommendations.
   */
  lemma AssembleAnomaly(p: RowParts)
    ensures var out := Assemble(p);
      (out.anomaly.Some? <==> RowIssues(p) != []) &&
      (out.anomaly.Some? ==> out.anomaly.value == AnomalyRecord(p.sourceRowId, RowIssues(p), Recommendations(RowIssues(p))))
  {
  }

  /** Every issue of the IP normalizer is about the IP. */
  lemma IpIssueFields(lib: IPv6Library, ipStr: Option<string>)
    ensures var issues := NormalizeIp(lib, ipStr).issues;
      forall k :: 0 <= k < |issues| ==> issues[k].field == "ip"
  {
    NormalizeIpValid(lib, ipStr);
    NormalizeIpFailure(lib, ipStr);
  }

  /** Every issue of the name normalizer is about the hostname or the FQDN. */
  lemma NamesIssueFields(hostnameRaw: Option<string>, fqdnRaw: Option<string>)
    ensures var issues := NormalizeNames(hostnameRaw, fqdnRaw).issues;
      forall k :: 0 <= k < |issues| ==> issues[k].field in {"hostname", "fqdn"}
  {
    var h0, f0, hr, fr := TrimOrEmpty(hostnameRaw), TrimOrEmpty(fqdnRaw), RawValue(hostnameRaw), RawValue(fqdnRaw);
    NamesIssues(h0, f0, hr, fr);
    var issues := NamesFromTrimmed(h0, f0, hr, fr).issues;
    forall k | 0 <= k < |issues| ensures issues[k].field in {"hostname", "fqdn"} {
      var x := issues[k];
      assert x in [Issue("hostname", "invalid_label", hr, None), Issue("fqdn", "invalid_format", fr, None),
                   Issue("fqdn", "hostname_mismatch", fr, None)];
    }
  }

  /** Every issue of the MAC normalizer is about the MAC. */
  lemma MacIssueFields(macRaw: Option<string>)
    ensures var issues := NormalizeMac(macRaw).issues;
      forall k :: 0 <= k < |issues| ==> issues[k].field == "mac"
  {
  }

  /** Every issue of a row is about the IP, the hostname, the FQDN or the MAC. */
  lemma RowIssueFields(lib: IPv6Library, row: RawRow)
    ensures var issues := RowIssues(Parts(lib, row));
      forall k :: 0 <= k < |issues| ==> issues[k].field in Actions
  {
    var p := Parts(lib, row);
    assert p.ip == NormalizeIp(lib, row.ip) && p.names == NormalizeNames(row.hostname, row.fqdn) &&
           p.mac == NormalizeMac(row.mac);
    IpIssueFields(lib, row.ip);
    NamesIssueFields(row.hostname, row.fqdn);
    MacIssueFields(row.mac);
    IssueFieldsConcat(p.ip.issues, p.names.issues, p.mac.issues);
  }

  lemma IssueFieldsConcat(a: seq<Issue>, b: seq<Issue>, c: seq<Issue>)
    requires forall k :: 0 <= k < |a| ==> a[k].field == "ip"
    requires forall k :: 0 <= k < |b| ==> b[k].field in {"hostname", "fqdn"}
    requires forall k :: 0 <= k < |c| ==> c[k].field == "mac"
    ensures forall k :: 0 <= k < |a + b + c| ==> (a + b + c)[k].field in Actions
  {
    forall k | 0 <= k < |a + b + c| ensures (a + b + c)[k].field in Actions {
      if k < |a| {
        assert (a + b + c)[k] == a[k];
      } else if k < |a| + |b| {
        assert (a + b + c)[k] == b[k - |a|];
      } else {
        assert (a + b + c)[k] == c[k - |a| - |b|];
      }
    }
  }

  /** Every anomaly record recommends at least one action, one per field with an issue. */
  lemma AnomalyRecommends(lib: IPv6Library, row: RawRow)
    requires ProcessRow(lib, row).anomaly.Some?
    ensures var a := ProcessRow(lib, row).anomaly.value;
      a.issues != [] && 1 <= |a.recommendedActions| <= 5 &&
      forall f :: f in Actions ==>
        (Actions[f] in a.recommendedActions <==> exists k :: 0 <= k < |a.issues| && a.issues[k].field == f)
  {
    var p := Parts(lib, row);
    AssembleAnomaly(p);
    var issues := RowIssues(p);
    RowIssueFields(lib, row);
    RecommendationsSpec(issues);
    ActionsTable();
    var f := issues[0].field;
    assert f in Actions;
    assert Actions[f] in Recommendations(issues);
  }

  /**
   * The reverse pointer is empty unless the IP is valid; a valid IPv4 address
   * always gets `d.c.b.a.in-addr.arpa` and the step `reverse_ptr_build`.
   */
  lemma ReversePointerColumn(lib: IPv6Library, row: RawRow)
    ensures var p := Parts(lib, row);
      (p.ip.valid != "true" ==> p.reversePtr == "" && p.reverseSteps == []) &&
      (p.ip.valid == "true" && p.ip.version == "4" ==>
        exists a: Address4 :: p.ip.ip == Format(a) && p.reversePtr == ReversePointer4(a) && p.reverseSteps == [ReversePtrBuild])
  {
    var ip := NormalizeIp(lib, row.ip);
    var p := Parts(lib, row);
    assert p.ip == ip && (p.reversePtr, p.reverseSteps) == ReverseOf(lib, ip);
    ReverseOfNormalized(lib, row.ip);
  }

  lemma ReverseOfNormalized(lib: IPv6Library, ipStr: Option<string>)
    ensures var ip := NormalizeIp(lib, ipStr); var rev := ReverseOf(lib, ip);
      (ip.valid != "true" ==> rev == ("", [])) &&
      (ip.valid == "true" && ip.version == "4" ==>
        exists a: Address4 :: ip.ip == Format(a) && rev == (ReversePointer4(a), [ReversePtrBuild]))
  {
    var ip := NormalizeIp(lib, ipStr);
    if ip.valid == "true" && ip.version == "4" {
      NormalizeIpFailure(lib, ipStr);
      var text := ipStr.value;
      NormalizeIpVersion4(lib, text);
      NormalizeIpAccepted4(lib, text);
      var a := RelaxedParse(Candidate(Strip(text))).value;
      assert ip.ip == Format(a);
      assert ReversePointerOf(lib, ip.ip) == Some(ReversePointer4(a));
    }
  }

  /** The four validity columns each hold "true", "false" or "". */
  lemma ValidityColumns(lib: IPv6Library, row: RawRow)
    ensures var r := ProcessRow(lib, row).record;
      IsTernary(r.ipValid) && IsTernary(r.hostnameValid) && IsTernary(r.fqdnConsistent) && IsTernary(r.macValid)
  {
    NormalizeIpValid(lib, row.ip);
    var h0, f0, hr, fr := TrimOrEmpty(row.hostname), TrimOrEmpty(row.fqdn), RawValue(row.hostname), RawValue(row.fqdn);
    HostnameValidIff(h0, f0, hr, fr);
    FqdnConsistentIff(h0, f0, hr, fr);
    MacValidIff(row.mac);
  }

  /** `MapRows` applies `f` to each row in place. */
  lemma {:induction false} MapRowsAt(f: RawRow -> RowOutput, rows: seq<RawRow>)
    ensures forall i :: 0 <= i < |rows| ==> MapRows(f, rows)[i] == f(rows[i])
    decreases |rows|
  {
    if rows != [] {
      var n := |rows| - 1;
      MapRowsAt(f, rows[..n]);
      assert forall i :: 0 <= i < n ==> rows[..n][i] == rows[i];
    }
  }

  /** The outputs are the rows processed one by one. */
  lemma OutputsAt(lib: IPv6Library, rows: seq<RawRow>, i: nat)
    requires i < |rows|
    ensures Outputs(lib, rows)[i] == ProcessRow(lib, rows[i])
  {
    MapRowsAt(RowProcessor(lib), rows);
  }

  /** The anomaly list holds exactly the anomaly records of the outputs that have one, in order. */
  lemma AnomaliesOfSpec(outs: seq<RowOutput>)
    ensures forall i :: 0 <= i < |outs| && outs[i].anomaly.Some? ==> outs[i].anomaly.value in AnomaliesOf(outs)
    ensures forall a :: a in AnomaliesOf(outs) ==> exists i :: 0 <= i < |outs| && outs[i].anomaly == Some(a)
    ensures |AnomaliesOf(outs)| == |outs| <==> forall i :: 0 <= i < |outs| ==> outs[i].anomaly.Some?
  {
    AnomaliesComplete(outs);
    AnomaliesSound(outs);
    AnomaliesAll(outs);
  }

  lemma {:induction false} AnomaliesComplete(outs: seq<RowOutput>)
    ensures forall i :: 0 <= i < |outs| && outs[i].anomaly.Some? ==> outs[i].anomaly.value in AnomaliesOf(outs)
    decreases |outs|
  {
    if outs != [] {
      var n := |outs| - 1;
      var p := outs[..n];
      AnomaliesComplete(p);
      assert forall i :: 0 <= i < n ==> p[i] == outs[i];
    }
  }

  lemma {:induction false} AnomaliesSound(outs: seq<RowOutput>)
    ensures forall a :: a in AnomaliesOf(outs) ==> exists i :: 0 <= i < |outs| && outs[i].anomaly == Some(a)
    decreases |outs|
  {
    if outs != [] {
      var n := |outs| - 1;
      var p := outs[..n];
      AnomaliesSound(p);
      assert forall i :: 0 <= i < n ==> p[i] == outs[i];
    }
  }

  lemma {:induction false} AnomaliesAll(outs: seq<RowOutput>)
    ensures |AnomaliesOf(outs)| == |outs| <==> forall i :: 0 <= i < |outs| ==> outs[i].anomaly.Some?
    decreases |outs|
  {
    if outs != [] {
      var n := |outs| - 1;
      var p := outs[..n];
      AnomaliesAll(p);
      assert forall i :: 0 <= i < n ==> p[i] == outs[i];
    }
  }

  /** A row's anomaly record, when it has one, lists issues. */
  lemma RowAnomalyHasIssues(lib: IPv6Library, row: RawRow)
    ensures var a := ProcessRow(lib, row).anomaly; a.Some? ==> a.value.issues != []
  {
    AssembleAnomaly(Parts(lib, row));
  }

  /** Each anomaly record `process` collects lists issues. */
  lemma AnomaliesHaveIssues(lib: IPv6Library, rows: seq<RawRow>)
    ensures forall a :: a in AnomaliesOf(Outputs(lib, rows)) ==> a.issues != []
  {
    var outs := Outputs(lib, rows);
    AnomaliesOfSpec(outs);
    forall i | 0 <= i < |rows| ensures outs[i].anomaly.Some? ==> outs[i].anomaly.value.issues != [] {
      OutputsAt(lib, rows, i);
      RowAnomalyHasIssues(lib, rows[i]);
    }
  }
}
