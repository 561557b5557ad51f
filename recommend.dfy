/**
 * `recommendations_for` (run.py:331-344): one recommended action per field
 * that has an issue, in the order the fields first occur, each once.
 */
module Recommend {
  import opened Records
  import opened Dedup

  /** The `actions` table: field name to recommended action. */
  const Actions: map<string, string> := map[
    "ip" := "Correct IP or mark record for review",
    "hostname" := "Adjust hostname to RFC-compliant label",
    "fqdn" := "Provide valid FQDN or clear the field",
    "mac" := "Fix MAC address to 12 hex digits",
    "device_type" := "Confirm device type"]

  /** The fields the table knows. */
  const Fields: seq<string> := ["ip", "hostname", "fqdn", "mac", "device_type"]

  /** The list the loop builds before `uniq`: one action per issue whose field is in the table. */
  function Mapped(issues: seq<Issue>): (r: seq<string>)
    ensures |r| <= |issues|
    ensures forall a :: a in r ==> a in Actions.Values
    decreases |issues|
  {
    if issues == [] then []
    else
      var f := issues[|issues| - 1].field;
      Mapped(issues[..|issues| - 1]) + (if f in Actions then [Actions[f]] else [])
  }

  /** What `recommendations_for` returns. */
  function Recommendations(issues: seq<Issue>): seq<string>
  {
    Deduplicated(Mapped(issues))
  }

  /** `recommendations_for(issues)`: the loop over the issues, then `uniq`. */
  method RecommendationsFor(issues: seq<Issue>) returns (recs: seq<string>)
    ensures recs == Recommendations(issues)
  {
    var mapped: seq<string> := [];
    for i := 0 to |issues|
      invariant mapped == Mapped(issues[..i])
    {
      assert issues[..i + 1][..i] == issues[..i];
      var field := issues[i].field;
      if field in Actions {
        mapped := mapped + [Actions[field]];
      }
    }
    assert issues[..|issues|] == issues;
    recs := Uniq(mapped);
  }

  // ---------------------------------------------------------------------------
  // Properties

  /** The table lists five fields with five different, non-empty actions. */
  lemma ActionsTable()
    ensures Actions.Keys == set f | f in Fields
    ensures forall f, g :: f in Actions && g in Actions && Actions[f] == Actions[g] ==> f == g
    ensures "" !in Actions.Values
    ensures Actions.Values == set f | f in Fields :: Actions[f]
  {
  }

  lemma ActionCount()
    ensures |Actions.Values| <= 5
  {
    var fields := Fields;
    assert Actions.Values == {Actions[fields[0]], Actions[fields[1]], Actions[fields[2]], Actions[fields[3]], Actions[fields[4]]};
  }

  /** An action is in the mapped list exactly when some issue has its field. */
  lemma {:induction false} MappedIff(issues: seq<Issue>, f: string)
    requires f in Actions
    ensures Actions[f] in Mapped(issues) <==> exists k :: 0 <= k < |issues| && issues[k].field == f
    decreases |issues|
  {
    ActionsTable();
    if issues != [] {
      var p := issues[..|issues| - 1];
      MappedIff(p, f);
      assert forall k :: 0 <= k < |p| ==> p[k] == issues[k];
      if exists k :: 0 <= k < |issues| && issues[k].field == f {
        var k :| 0 <= k < |issues| && issues[k].field == f;
        if k < |p| { assert p[k].field == f; }
      }
    }
  }

  /** A list without repetitions drawn from a set is no longer than the set is large. */
  lemma {:induction false} DistinctWithin(s: seq<string>, pool: set<string>)
    requires NoDuplicates(s) && forall x :: x in s ==> x in pool
    ensures |s| <= |pool|
    decreases |s|
  {
    if s != [] {
      var rest := s[1..];
      assert NoDuplicates(rest) by { assert forall i :: 0 <= i < |rest| ==> rest[i] == s[i + 1]; }
      assert s[0] !in rest by { assert forall i :: 0 <= i < |rest| ==> rest[i] == s[i + 1]; }
      DistinctWithin(rest, pool - {s[0]});
    }
  }

  /**
   * The recommendations hold each action once, at most five of them, and an
   * action exactly when some issue has its field; they follow the order in
   * which the actions are first called for.
   */
  lemma RecommendationsSpec(issues: seq<Issue>)
    ensures var r := Recommendations(issues);
      NoDuplicates(r) && |r| <= 5 &&
      (forall a :: a in r ==> a in Actions.Values) &&
      (forall f :: f in Actions ==> (Actions[f] in r <==> exists k :: 0 <= k < |issues| && issues[k].field == f))
    ensures var r := Recommendations(issues); var m := Mapped(issues);
      (forall a :: a in r ==> a in m) &&
      forall i, j :: 0 <= i < j < |r| ==> FirstIndex(m, r[i]) < FirstIndex(m, r[j])
  {
    var m := Mapped(issues);
    var r := Recommendations(issues);
    DeduplicatedElements(m);
    DeduplicatedOrder(m);
    DistinctWithin(r, Actions.Values);
    ActionCount();
    forall f | f in Actions
      ensures Actions[f] in r <==> exists k :: 0 <= k < |issues| && issues[k].field == f
    {
      MappedIff(issues, f);
    }
  }
}
