/**
 * `normalize_device_type` (run.py:279-302): a non-blank device type cell wins
 * with confidence "high"; otherwise keyword rules on the normalized hostname
 * and the notes infer a type with confidence "medium".
 */
module Device {
  import opened Wrappers
  import opened Text
  import opened Records

  /** The tuple `normalize_device_type` returns: device type, confidence, steps. */
  datatype DeviceResult = DeviceResult(deviceType: string, confidence: string, steps: seq<Step>)

  /** `(hostname or "").lower() + " " + (notes or "").lower()` */
  function Hints(hostname: string, notes: Option<string>): string
  {
    Lower(hostname) + " " + Lower(if notes.Some? then notes.value else "")
  }

  /** The `if`/`elif` chain of run.py:287-296. */
  function Infer(hints: string): string
  {
    if Contains(hints, "printer") then "printer"
    else if Contains(hints, "switch") then "switch"
    else if Contains(hints, "router") || Contains(hints, "gateway") || Contains(hints, "gw") then "router"
    else if Contains(hints, "cam") || Contains(hints, "iot") then "iot"
    else if Contains(hints, "srv") || Contains(hints, "server") || Contains(hints, "db") then "server"
    else ""
  }

  /** `normalize_device_type(raw_value, hostname, notes)`, `None` for a missing cell. */
  function NormalizeDeviceType(rawValue: Option<string>, hostname: string, notes: Option<string>): DeviceResult
  {
    if rawValue.Some? && rawValue.value != "" then
      DeviceResult(Lower(Strip(rawValue.value)), "high", [DeviceFromInput])
    else
      var inferred := Infer(Hints(hostname, notes));
      if inferred != "" then DeviceResult(inferred, "medium", [DeviceInferred])
      else DeviceResult("", "", [])
  }

  // ---------------------------------------------------------------------------
  // The rules as a table

  /** A rule: the type it infers and the keywords that trigger it. */
  datatype Rule = Rule(category: string, keywords: seq<string>)

  /** The rules in priority order. */
  const Rules: seq<Rule> := [
    Rule("printer", ["printer"]),
    Rule("switch", ["switch"]),
    Rule("router", ["router", "gateway", "gw"]),
    Rule("iot", ["cam", "iot"]),
    Rule("server", ["srv", "server", "db"])]

  /** Some keyword of the rule occurs in the hints. */
  predicate Fires(rule: Rule, hints: string)
  {
    exists k :: 0 <= k < |rule.keywords| && Contains(hints, rule.keywords[k])
  }

  /** The category of the first rule in `rules` that fires, or "" when none does. */
  function FirstFiring(rules: seq<Rule>, hints: string): (r: string)
    requires forall i :: 0 <= i < |rules| ==> rules[i].category != ""
    ensures r == "" <==> forall i :: 0 <= i < |rules| ==> !Fires(rules[i], hints)
    ensures r != "" ==> exists i :: 0 <= i < |rules| && Fires(rules[i], hints) && r == rules[i].category &&
                                    forall j :: 0 <= j < i ==> !Fires(rules[j], hints)
    decreases |rules|
  {
    if rules == [] then ""
    else if Fires(rules[0], hints) then rules[0].category
    else
      var r := FirstFiring(rules[1..], hints);
      assert r != "" ==> exists i :: 0 <= i < |rules| && Fires(rules[i], hints) && r == rules[i].category &&
                                    forall j :: 0 <= j < i ==> !Fires(rules[j], hints) by {
        if r != "" {
          var i :| 0 <= i < |rules[1..]| && Fires(rules[1..][i], hints) && r == rules[1..][i].category &&
                   forall j :: 0 <= j < i ==> !Fires(rules[1..][j], hints);
          assert forall j :: 1 <= j < i + 1 ==> !Fires(rules[j], hints) by {
            forall j | 1 <= j < i + 1 ensures !Fires(rules[j], hints) {
              assert rules[j] == rules[1..][j - 1];
            }
          }
        }
      }
      assert r == "" ==> forall i :: 0 <= i < |rules| ==> !Fires(rules[i], hints) by {
        if r == "" {
          forall i | 0 <= i < |rules| ensures !Fires(rules[i], hints) {
            if i > 0 {
              assert rules[i] == rules[1..][i - 1];
            }
          }
        }
      }
      r
  }

  /** The `if`/`elif` chain is the first firing rule of the table. */
  lemma InferIsFirstFiring(hints: string)
    ensures forall i :: 0 <= i < |Rules| ==> Rules[i].category != ""
    ensures Infer(hints) == FirstFiring(Rules, hints)
  {
    var r := Rules;
    assert r[1..] == [r[1], r[2], r[3], r[4]];
    assert r[1..][1..] == [r[2], r[3], r[4]];
    assert r[1..][1..][1..] == [r[3], r[4]];
    assert r[1..][1..][1..][1..] == [r[4]];
    assert r[1..][1..][1..][1..][1..] == [];
    assert Fires(r[0], hints) <==> Contains(hints, "printer") by {
      assert r[0].keywords[0] == "printer";
    }
    assert Fires(r[1], hints) <==> Contains(hints, "switch") by {
      assert r[1].keywords[0] == "switch";
    }
    assert Fires(r[2], hints) <==> Contains(hints, "router") || Contains(hints, "gateway") || Contains(hints, "gw") by {
      var kw := r[2].keywords;
      assert kw[0] == "router" && kw[1] == "gateway" && kw[2] == "gw";
    }
    assert Fires(r[3], hints) <==> Contains(hints, "cam") || Contains(hints, "iot") by {
      var kw := r[3].keywords;
      assert kw[0] == "cam" && kw[1] == "iot";
    }
    assert Fires(r[4], hints) <==> Contains(hints, "srv") || Contains(hints, "server") || Contains(hints, "db") by {
      var kw := r[4].keywords;
      assert kw[0] == "srv" && kw[1] == "server" && kw[2] == "db";
    }
  }

  // ---------------------------------------------------------------------------
  // Properties

  /**
   * A non-blank cell wins: trimmed and lower-cased, confidence "high", step
   * `device_from_input`. Otherwise the type is the category of the first
   * table rule with a keyword in the hints, with confidence "medium" and step
   * `device_inferred` exactly when some rule fires, and nothing when none does.
   */
  lemma DeviceTypeSpec(rawValue: Option<string>, hostname: string, notes: Option<string>)
    ensures var r := NormalizeDeviceType(rawValue, hostname, notes);
      (r.confidence == "high" <==> rawValue.Some? && rawValue.value != "") &&
      (r.confidence == "high" ==> r.deviceType == Lower(Strip(rawValue.value)) && r.steps == [DeviceFromInput])
    ensures var r := NormalizeDeviceType(rawValue, hostname, notes);
      var hints := Hints(hostname, notes);
      r.confidence != "high" ==>
        r.deviceType == FirstFiring(Rules, hints) &&
        (r.confidence == "medium" <==> exists i :: 0 <= i < |Rules| && Fires(Rules[i], hints)) &&
        (r.confidence == "medium" ==> r.steps == [DeviceInferred]) &&
        (r.confidence != "medium" ==> r == DeviceResult("", "", []))
  {
    var hints := Hints(hostname, notes);
    InferIsFirstFiring(hints);
  }
}
