/**
 * `uniq` (run.py:70-77): order-preserving de-duplication that also drops empty
 * strings (the `if item` test). The function `Deduplicated` is the list the
 * loop has built after each prefix of the input; the method `Uniq` is the loop.
 */
module Dedup {

  /** What `uniq` returns: an item is kept when it is non-empty and not kept already. */
  function Deduplicated(s: seq<string>): seq<string>
    decreases |s|
  {
    if s == [] then []
    else
      var kept := Deduplicated(s[..|s| - 1]);
      var x := s[|s| - 1];
      if x == "" || x in kept then kept else kept + [x]
  }

  predicate NoDuplicates(s: seq<string>)
  {
    forall i, j :: 0 <= i < j < |s| ==> s[i] != s[j]
  }

  /** Position of the first occurrence of `x` in `s`. */
  function FirstIndex(s: seq<string>, x: string): (k: nat)
    requires x in s
    ensures k < |s| && s[k] == x && x !in s[..k]
  {
    if s[0] == x then 0
    else
      assert x in s[1..];
      var k := FirstIndex(s[1..], x);
      assert s[..k + 1] == [s[0]] + s[1..][..k];
      k + 1
  }

  /** The kept items are exactly the non-empty items of the input, each once. */
  lemma {:induction false} DeduplicatedElements(s: seq<string>)
    ensures NoDuplicates(Deduplicated(s))
    ensures forall x :: x in Deduplicated(s) <==> x in s && x != ""
    decreases |s|
  {
    if s != [] {
      var p := s[..|s| - 1];
      DeduplicatedElements(p);
      assert s == p + [s[|s| - 1]];
    }
  }

  lemma {:induction false} FirstIndexExtend(s: seq<string>, x: string, y: string)
    requires y in s
    ensures FirstIndex(s + [x], y) == FirstIndex(s, y)
  {
    if s[0] != y {
      assert (s + [x])[1..] == s[1..] + [x];
      FirstIndexExtend(s[1..], x, y);
    }
  }

  lemma FirstIndexOfNew(s: seq<string>, x: string)
    requires x !in s
    ensures FirstIndex(s + [x], x) == |s|
  {
  }

  /** The kept items appear in the order of their first occurrences in the input. */
  lemma {:induction false} DeduplicatedOrder(s: seq<string>)
    ensures forall x :: x in Deduplicated(s) ==> x in s
    ensures forall i, j :: 0 <= i < j < |Deduplicated(s)| ==>
              FirstIndex(s, Deduplicated(s)[i]) < FirstIndex(s, Deduplicated(s)[j])
    decreases |s|
  {
    DeduplicatedElements(s);
    if s != [] {
      var p := s[..|s| - 1];
      var x := s[|s| - 1];
      assert s == p + [x];
      DeduplicatedOrder(p);
      DeduplicatedElements(p);
      var d := Deduplicated(p);
      forall y | y in d ensures FirstIndex(s, y) == FirstIndex(p, y) {
        FirstIndexExtend(p, x, y);
      }
      if x != "" && x !in d {
        FirstIndexOfNew(p, x);
        var r := Deduplicated(s);
        assert r == d + [x];
        forall i, j | 0 <= i < j < |r|
          ensures FirstIndex(s, r[i]) < FirstIndex(s, r[j])
        {
          if j < |d| {
            assert r[i] == d[i] && r[j] == d[j];
          } else {
            assert r[i] == d[i];
          }
        }
      }
    }
  }

  lemma {:induction false} DeduplicatedOfDistinct(s: seq<string>)
    requires NoDuplicates(s) && "" !in s
    ensures Deduplicated(s) == s
    decreases |s|
  {
    if s != [] {
      var p := s[..|s| - 1];
      DeduplicatedOfDistinct(p);
      assert s[|s| - 1] !in p;
      assert s == p + [s[|s| - 1]];
    }
  }

  /** De-duplicating twice is the same as de-duplicating once. */
  lemma DeduplicatedIdempotent(s: seq<string>)
    ensures Deduplicated(Deduplicated(s)) == Deduplicated(s)
  {
    DeduplicatedElements(s);
    DeduplicatedOfDistinct(Deduplicated(s));
  }

  /** The `uniq` loop: a `seen` set and an `out` list grown item by item. */
  method Uniq(s: seq<string>) returns (out: seq<string>)
    ensures out == Deduplicated(s)
    ensures NoDuplicates(out) && "" !in out
    ensures forall x :: x in out <==> x in s && x != ""
  {
    var seen: set<string> := {};
    out := [];
    for i := 0 to |s|
      invariant out == Deduplicated(s[..i])
      invariant forall x :: x in seen <==> x in out
    {
      var item := s[i];
      assert s[..i + 1][..i] == s[..i];
      if item != "" && item !in seen {
        seen := seen + {item};
        out := out + [item];
      }
    }
    assert s[..|s|] == s;
    DeduplicatedElements(s);
  }
}
