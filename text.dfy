/**
 * ASCII models of the Python `str` operations the normalizers are built from:
 * `strip`, `lower`, `upper`, `split(sep)`, `split()`, `sep.join`, `in`,
 * `replace`, `capitalize`, `title`, `int(s, 10)` on digit strings and `str(n)`.
 *
 * Only ASCII behaviour is modelled. Whitespace is what Python's `str.isspace`
 * accepts among the ASCII characters: space, TAB, LF, VT, FF, CR and the four
 * separators 0x1C-0x1F. The same set is what `\s` matches in a `re` pattern
 * over `str`.
 */
module Text {

  predicate IsSpace(c: char) { c == ' ' || 9 <= c as int <= 13 || 28 <= c as int <= 31 }
  predicate IsDigit(c: char) { '0' <= c <= '9' }
  predicate IsUpper(c: char) { 'A' <= c <= 'Z' }
  predicate IsLower(c: char) { 'a' <= c <= 'z' }
  predicate IsAlpha(c: char) { IsUpper(c) || IsLower(c) }
  predicate IsAlnum(c: char) { IsAlpha(c) || IsDigit(c) }
  predicate IsHexDigit(c: char) { IsDigit(c) || 'a' <= c <= 'f' || 'A' <= c <= 'F' }

  predicate AllDigits(s: string) { forall i :: 0 <= i < |s| ==> IsDigit(s[i]) }
  predicate NoUpper(s: string) { forall i :: 0 <= i < |s| ==> !IsUpper(s[i]) }
  predicate NoLower(s: string) { forall i :: 0 <= i < |s| ==> !IsLower(s[i]) }

  // ---------------------------------------------------------------------------
  // Case mapping

  function LowerChar(c: char): (r: char)
    ensures !IsUpper(r)
    ensures IsUpper(c) ==> IsLower(r)
    ensures !IsUpper(c) ==> r == c
    ensures IsSpace(r) == IsSpace(c) && IsAlnum(r) == IsAlnum(c) && IsHexDigit(r) == IsHexDigit(c)
  {
    if IsUpper(c) then (c as int + 32) as char else c
  }

  function UpperChar(c: char): (r: char)
    ensures !IsLower(r)
    ensures IsLower(c) ==> IsUpper(r)
    ensures !IsLower(c) ==> r == c
    ensures IsSpace(r) == IsSpace(c)
  {
    if IsLower(c) then (c as int - 32) as char else c
  }

  /** `s.lower()` */
  function Lower(s: string): (r: string)
    ensures |r| == |s| && NoUpper(r)
  {
    seq(|s|, i requires 0 <= i < |s| => LowerChar(s[i]))
  }

  /** `s.upper()` */
  function Upper(s: string): (r: string)
    ensures |r| == |s| && NoLower(r)
  {
    seq(|s|, i requires 0 <= i < |s| => UpperChar(s[i]))
  }

  lemma LowerOfLowerCase(s: string)
    requires NoUpper(s)
    ensures Lower(s) == s
  {
  }

  lemma LowerUpperOfLowerCase(s: string)
    requires NoUpper(s)
    ensures Lower(Upper(s)) == s
  {
    forall i | 0 <= i < |s| ensures Lower(Upper(s))[i] == s[i] {
      if IsLower(s[i]) {
        assert (s[i] as int - 32 + 32) as char == s[i];
      }
    }
  }

  // ---------------------------------------------------------------------------
  // Whitespace trimming

  /** `s.lstrip()` */
  function StripLeft(s: string): (r: string)
    ensures |r| <= |s| && r == s[|s| - |r|..]
    ensures forall k :: 0 <= k < |s| - |r| ==> IsSpace(s[k])
    ensures r != [] ==> !IsSpace(r[0])
    decreases |s|
  {
    if |s| > 0 && IsSpace(s[0]) then StripLeft(s[1..]) else s
  }

  /** `s.rstrip()` */
  function StripRight(s: string): (r: string)
    ensures |r| <= |s| && r == s[..|r|]
    ensures forall k :: |r| <= k < |s| ==> IsSpace(s[k])
    ensures r != [] ==> !IsSpace(r[|r| - 1])
    decreases |s|
  {
    if |s| > 0 && IsSpace(s[|s| - 1]) then StripRight(s[..|s| - 1]) else s
  }

  /** `s.lstrip(c)`: drop every leading `c`. */
  function LStripChar(s: string, c: char): (r: string)
    ensures |r| <= |s| && r == s[|s| - |r|..]
    ensures forall k :: 0 <= k < |s| - |r| ==> s[k] == c
    ensures r != [] ==> r[0] != c
    decreases |s|
  {
    if |s| > 0 && s[0] == c then LStripChar(s[1..], c) else s
  }

  /** The string has no whitespace at either end: what `strip` leaves. */
  predicate Trimmed(s: string)
  {
    s == [] || (!IsSpace(s[0]) && !IsSpace(s[|s| - 1]))
  }

  /** `s.strip()` */
  function Strip(s: string): (r: string)
    ensures Trimmed(r) && |r| <= |s|
  {
    StripRight(StripLeft(s))
  }

  /** `s.strip()` is the slice of `s` between its leading and trailing whitespace. */
  lemma StripIsSlice(s: string)
    ensures var m := |s| - |StripLeft(s)|; m + |Strip(s)| <= |s| && Strip(s) == s[m..m + |Strip(s)|]
  {
  }

  lemma StripOfTrimmed(s: string)
    requires Trimmed(s)
    ensures Strip(s) == s
  {
  }

  lemma StripIdempotent(s: string)
    ensures Strip(Strip(s)) == Strip(s)
  {
    StripOfTrimmed(Strip(s));
  }

  lemma LowerPreservesTrimmed(s: string)
    requires Trimmed(s)
    ensures Trimmed(Lower(s))
  {
  }

  // ---------------------------------------------------------------------------
  // Searching

  /** Index of the first `c` in `s` at or after `i`, or `|s|` if there is none. */
  function IndexOf(s: string, c: char, i: nat): (k: nat)
    requires i <= |s|
    ensures i <= k <= |s|
    ensures k < |s| ==> s[k] == c
    ensures forall j :: i <= j < k ==> s[j] != c
    decreases |s| - i
  {
    if i == |s| then |s| else if s[i] == c then i else IndexOf(s, c, i + 1)
  }

  /** `sub` occurs in `s` at position `i`, compared character by character from offset `k`. */
  predicate MatchesAt(s: string, sub: string, i: nat, k: nat := 0)
    requires k <= |sub|
    decreases |sub| - k
  {
    i + |sub| <= |s| && (k == |sub| || (s[i + k] == sub[k] && MatchesAt(s, sub, i, k + 1)))
  }

  lemma MatchesAtIsSlice(s: string, sub: string, i: nat, k: nat)
    requires k <= |sub|
    ensures MatchesAt(s, sub, i, k) <==>
              i + |sub| <= |s| && forall j :: k <= j < |sub| ==> s[i + j] == sub[j]
    decreases |sub| - k
  {
    if k < |sub| {
      MatchesAtIsSlice(s, sub, i, k + 1);
    }
  }

  lemma {:induction false} MatchesAtIff(s: string, sub: string, i: nat)
    ensures MatchesAt(s, sub, i) <==> i + |sub| <= |s| && s[i..i + |sub|] == sub
  {
    MatchesAtIsSlice(s, sub, i, 0);
    if i + |sub| <= |s| && s[i..i + |sub|] == sub {
      assert forall j :: 0 <= j < |sub| ==> sub[j] == s[i + j];
    }
  }

  /** `sub` occurs in `s` at some position at or after `i`. */
  predicate ContainsFrom(s: string, sub: string, i: nat)
    decreases |s| - i
  {
    i + |sub| <= |s| && (MatchesAt(s, sub, i) || ContainsFrom(s, sub, i + 1))
  }

  /** `sub in s` */
  predicate Contains(s: string, sub: string)
  {
    ContainsFrom(s, sub, 0)
  }

  lemma {:induction false} ContainsFromIff(s: string, sub: string, i: nat)
    ensures ContainsFrom(s, sub, i) <==> exists j :: i <= j && MatchesAt(s, sub, j)
    decreases |s| - i
  {
    if i + |sub| <= |s| {
      ContainsFromIff(s, sub, i + 1);
      if MatchesAt(s, sub, i) {
        assert ContainsFrom(s, sub, i);
        assert exists j :: i <= j && MatchesAt(s, sub, j);
      } else if exists j :: i <= j && MatchesAt(s, sub, j) {
        var j :| i <= j && MatchesAt(s, sub, j);
        assert i + 1 <= j && MatchesAt(s, sub, j);
      }
    } else {
      forall j | i <= j ensures !MatchesAt(s, sub, j) {
      }
    }
  }

  /** `Contains` is substring containment: `sub` is the slice of `s` at some position. */
  lemma ContainsIff(s: string, sub: string)
    ensures Contains(s, sub) <==> exists j :: 0 <= j && MatchesAt(s, sub, j)
    ensures forall j: nat :: MatchesAt(s, sub, j) <==> j + |sub| <= |s| && s[j..j + |sub|] == sub
  {
    ContainsFromIff(s, sub, 0);
    forall j: nat ensures MatchesAt(s, sub, j) <==> j + |sub| <= |s| && s[j..j + |sub|] == sub {
      MatchesAtIff(s, sub, j);
    }
  }

  // ---------------------------------------------------------------------------
  // Splitting and joining

  /** `s.split(c)` for a one-character separator. */
  function Split(s: string, c: char): (r: seq<string>)
    ensures |r| >= 1
    ensures forall k :: 0 <= k < |r| ==> c !in r[k]
    decreases |s|
  {
    var k := IndexOf(s, c, 0);
    if k == |s| then [s] else [s[..k]] + Split(s[k + 1..], c)
  }

  /** `sep.join(parts)` */
  function Join(parts: seq<string>, sep: string): string
  {
    if |parts| == 0 then "" else if |parts| == 1 then parts[0]
    else parts[0] + sep + Join(parts[1..], sep)
  }

  lemma SplitAt(s: string, c: char, k: nat)
    requires k < |s| && s[k] == c && c !in s[..k]
    ensures Split(s, c) == [s[..k]] + Split(s[k + 1..], c)
  {
    assert forall j :: 0 <= j < k ==> s[..k][j] == s[j];
  }

  lemma SplitNone(s: string, c: char)
    requires c !in s
    ensures Split(s, c) == [s]
  {
  }

  /** The first piece of a split is the text before the first separator. */
  lemma SplitFirst(s: string, c: char)
    ensures Split(s, c)[0] == s[..IndexOf(s, c, 0)]
  {
  }

  /** Joining the pieces of a split gives back the string. */
  lemma {:induction false} JoinSplit(s: string, c: char)
    ensures Join(Split(s, c), [c]) == s
    decreases |s|
  {
    var k := IndexOf(s, c, 0);
    if k < |s| {
      JoinSplit(s[k + 1..], c);
      assert s == s[..k] + [c] + s[k + 1..];
    }
  }

  /** Splitting a joined list of separator-free pieces gives back the pieces. */
  lemma SplitCons(p: string, c: char, t: string)
    requires c !in p
    ensures Split(p + [c] + t, c) == [p] + Split(t, c)
  {
    var s := p + [c] + t;
    assert s[..|p|] == p;
    assert s[|p| + 1..] == t;
    SplitAt(s, c, |p|);
  }

  lemma {:induction false} SplitJoin(parts: seq<string>, c: char)
    requires |parts| >= 1
    requires forall k :: 0 <= k < |parts| ==> c !in parts[k]
    ensures Split(Join(parts, [c]), c) == parts
    decreases |parts|
  {
    if |parts| == 1 {
      SplitNone(parts[0], c);
    } else {
      var rest := parts[1..];
      assert Join(parts, [c]) == parts[0] + [c] + Join(rest, [c]);
      assert c !in parts[0];
      SplitCons(parts[0], c, Join(rest, [c]));
      SplitJoin(rest, c);
      assert parts == [parts[0]] + rest;
    }
  }

  lemma {:induction false} JoinWithout(parts: seq<string>, sep: char, c: char)
    requires c != sep && forall k :: 0 <= k < |parts| ==> c !in parts[k]
    ensures c !in Join(parts, [sep])
  {
    if |parts| > 1 {
      JoinWithout(parts[1..], sep, c);
    }
  }

  /** A character that no piece of a split contains does not occur in the string. */
  lemma SplitPiecesWithout(s: string, sep: char, c: char)
    requires c != sep && forall k :: 0 <= k < |Split(s, sep)| ==> c !in Split(s, sep)[k]
    ensures c !in s
  {
    JoinSplit(s, sep);
    JoinWithout(Split(s, sep), sep, c);
  }

  // ---------------------------------------------------------------------------
  // Replacement

  /** `s.replace(a, b)` for one-character `a` and `b`. */
  function ReplaceChar(s: string, a: char, b: char): (r: string)
    ensures |r| == |s|
    ensures forall i :: 0 <= i < |s| ==> r[i] == (if s[i] == a then b else s[i])
  {
    seq(|s|, i requires 0 <= i < |s| => if s[i] == a then b else s[i])
  }

  /**
   * `s[i:].replace(pat, rep)`: every non-overlapping occurrence of `pat`, found
   * left to right, is replaced. Python's behaviour for an empty `pat` is not
   * needed here.
   */
  function ReplaceFrom(s: string, pat: string, rep: string, i: nat): string
    requires |pat| > 0 && i <= |s|
    decreases |s| - i
  {
    if i + |pat| > |s| then s[i..]
    else if MatchesAt(s, pat, i) then rep + ReplaceFrom(s, pat, rep, i + |pat|)
    else [s[i]] + ReplaceFrom(s, pat, rep, i + 1)
  }

  function Replace(s: string, pat: string, rep: string): string
    requires |pat| > 0
  {
    ReplaceFrom(s, pat, rep, 0)
  }

  lemma {:induction false} ReplaceFromWithoutOccurrence(s: string, pat: string, rep: string, i: nat)
    requires |pat| > 0 && i <= |s|
    requires !ContainsFrom(s, pat, i)
    ensures ReplaceFrom(s, pat, rep, i) == s[i..]
    decreases |s| - i
  {
    if i + |pat| <= |s| {
      ReplaceFromWithoutOccurrence(s, pat, rep, i + 1);
      assert s[i..] == [s[i]] + s[i + 1..];
    }
  }

  /** Replacing a text that does not occur changes nothing. */
  lemma ReplaceWithoutOccurrence(s: string, pat: string, rep: string)
    requires |pat| > 0 && !Contains(s, pat)
    ensures Replace(s, pat, rep) == s
  {
    ReplaceFromWithoutOccurrence(s, pat, rep, 0);
  }

  // ---------------------------------------------------------------------------
  // Whitespace-separated words

  /** Index of the first whitespace character at or after `i`, or `|s|`. */
  function IndexOfSpace(s: string, i: nat): (k: nat)
    requires i <= |s|
    ensures i <= k <= |s| && (k < |s| ==> IsSpace(s[k]))
    ensures forall j :: i <= j < k ==> !IsSpace(s[j])
    decreases |s| - i
  {
    if i == |s| then |s| else if IsSpace(s[i]) then i else IndexOfSpace(s, i + 1)
  }

  /** A word: non-empty and free of whitespace. */
  predicate IsWord(w: string)
  {
    w != [] && forall i :: 0 <= i < |w| ==> !IsSpace(w[i])
  }

  /** `s.split()`: the maximal runs of non-whitespace characters, in order. */
  function Words(s: string): (r: seq<string>)
    ensures forall k :: 0 <= k < |r| ==> IsWord(r[k])
    decreases |s|
  {
    if s == [] then []
    else if IsSpace(s[0]) then Words(s[1..])
    else
      var k := IndexOfSpace(s, 0);
      [s[..k]] + Words(s[k..])
  }

  /** Words joined by single spaces split back into the same words. */
  lemma {:induction false} WordsOfJoin(ws: seq<string>)
    requires forall k :: 0 <= k < |ws| ==> IsWord(ws[k])
    ensures Words(Join(ws, " ")) == ws
  {
    if |ws| > 0 {
      var w := ws[0];
      var rest := if |ws| == 1 then "" else " " + Join(ws[1..], " ");
      var s := w + rest;
      assert Join(ws, " ") == s;
      var k := IndexOfSpace(s, 0);
      assert forall j :: 0 <= j < |w| ==> s[j] == w[j];
      assert |s| == |w| || s[|w|] == ' ';
      assert k == |w|;
      assert s[..k] == w && s[k..] == rest;
      if |ws| > 1 {
        WordsOfJoin(ws[1..]);
        assert rest[1..] == Join(ws[1..], " ");
      } else {
        assert ws == [w];
      }
    }
  }

  /** Words joined by single spaces have no whitespace at the ends. */
  lemma {:induction false} JoinWordsTrimmed(ws: seq<string>)
    requires forall k :: 0 <= k < |ws| ==> IsWord(ws[k])
    ensures Trimmed(Join(ws, " "))
    ensures |ws| > 0 ==> Join(ws, " ") != [] && Join(ws, " ")[0] == ws[0][0]
  {
    if |ws| > 1 {
      JoinWordsTrimmed(ws[1..]);
      var rest := Join(ws[1..], " ");
      assert Join(ws, " ") == ws[0] + " " + rest;
      assert Join(ws, " ")[|Join(ws, " ")| - 1] == rest[|rest| - 1];
    }
  }

  /** Two whitespace characters never stand next to each other. */
  predicate NoDoubleSpace(s: string)
  {
    forall i :: 0 <= i < |s| - 1 ==> !(IsSpace(s[i]) && IsSpace(s[i + 1]))
  }

  /** Every whitespace character is a plain space. */
  predicate OnlyPlainSpaces(s: string)
  {
    forall i :: 0 <= i < |s| ==> IsSpace(s[i]) ==> s[i] == ' '
  }

  /** `re.sub(r"\s+", " ", s)`: each maximal run of whitespace becomes one space. */
  function CollapseSpaces(s: string): (r: string)
    ensures NoDoubleSpace(r) && OnlyPlainSpaces(r)
    ensures r != [] && s != [] ==> IsSpace(r[0]) == IsSpace(s[0])
    ensures (r == []) == (s == [])
    decreases |s|
  {
    if s == [] then []
    else if IsSpace(s[0]) then " " + CollapseSpaces(StripLeft(s))
    else [s[0]] + CollapseSpaces(s[1..])
  }

  /** Collapsing adds no character other than ' '. */
  lemma {:induction false} CollapseChars(s: string)
    ensures forall ch :: ch in CollapseSpaces(s) ==> ch == ' ' || ch in s
    decreases |s|
  {
    if s != [] {
      var t := if IsSpace(s[0]) then StripLeft(s) else s[1..];
      CollapseChars(t);
      assert forall ch :: ch in t ==> ch in s;
    }
  }

  /** Collapsing text that has only single plain spaces changes nothing. */
  lemma {:induction false} CollapseOfCollapsed(s: string)
    requires NoDoubleSpace(s) && OnlyPlainSpaces(s)
    ensures CollapseSpaces(s) == s
    decreases |s|
  {
    if s != [] {
      var t := s[1..];
      SliceKeepsSpacing(s, 1, |s|);
      CollapseOfCollapsed(t);
      if IsSpace(s[0]) {
        assert t == [] || !IsSpace(t[0]);
        assert StripLeft(s) == StripLeft(t) == t;
      }
      assert s == [s[0]] + t;
    }
  }

  lemma SliceKeepsSpacing(s: string, a: nat, b: nat)
    requires a <= b <= |s| && NoDoubleSpace(s) && OnlyPlainSpaces(s)
    ensures NoDoubleSpace(s[a..b]) && OnlyPlainSpaces(s[a..b])
    ensures forall ch :: ch in s[a..b] ==> ch in s
  {
    var t := s[a..b];
    assert forall i :: 0 <= i < |t| ==> t[i] == s[a + i];
  }

  lemma StripKeepsSpacing(s: string)
    requires NoDoubleSpace(s) && OnlyPlainSpaces(s)
    ensures NoDoubleSpace(Strip(s)) && OnlyPlainSpaces(Strip(s))
    ensures forall ch :: ch in Strip(s) ==> ch in s
  {
    var l := StripLeft(s);
    SliceKeepsSpacing(s, |s| - |l|, |s|);
    SliceKeepsSpacing(l, 0, |StripRight(l)|);
  }

  // ---------------------------------------------------------------------------
  // Capitalisation

  /** `w.capitalize()`: first character upper case, the rest lower case. */
  function Capitalize(w: string): (r: string)
    ensures |r| == |w|
    ensures r != [] ==> !IsLower(r[0]) && NoUpper(r[1..])
    ensures forall i :: 0 <= i < |w| ==> IsSpace(r[i]) == IsSpace(w[i]) && (!IsAlpha(w[i]) ==> r[i] == w[i])
  {
    if w == [] then [] else [UpperChar(w[0])] + Lower(w[1..])
  }

  /**
   * `s.title()` from a position where the previous character was (`prevCased`)
   * or was not a letter: a letter after a non-letter is upper-cased, a letter
   * after a letter is lower-cased, anything else is kept.
   */
  function TitleFrom(s: string, prevCased: bool): (r: string)
    ensures |r| == |s|
    ensures forall i :: 0 <= i < |s| ==> IsAlpha(r[i]) == IsAlpha(s[i]) && IsSpace(r[i]) == IsSpace(s[i])
    decreases |s|
  {
    if s == [] then []
    else if IsAlpha(s[0]) then
      [if prevCased then LowerChar(s[0]) else UpperChar(s[0])] + TitleFrom(s[1..], true)
    else [s[0]] + TitleFrom(s[1..], false)
  }

  /** `s.title()` */
  function Title(s: string): (r: string)
    ensures |r| == |s|
  {
    TitleFrom(s, false)
  }

  /** A title-cased text starts every run of letters upper case and lower-cases the rest of it. */
  lemma {:induction false} TitleShape(s: string, prevCased: bool, i: nat)
    requires i < |s| && IsAlpha(s[i])
    ensures (if i == 0 then !prevCased else !IsAlpha(s[i - 1])) ==> IsUpper(TitleFrom(s, prevCased)[i])
    ensures (if i == 0 then prevCased else IsAlpha(s[i - 1])) ==> IsLower(TitleFrom(s, prevCased)[i])
    decreases i
  {
    if i > 0 {
      TitleShape(s[1..], IsAlpha(s[0]), i - 1);
      assert TitleFrom(s, prevCased)[i] == TitleFrom(s[1..], IsAlpha(s[0]))[i - 1];
    }
  }

  // ---------------------------------------------------------------------------
  // Decimal numbers

  function DigitValue(c: char): nat
    requires IsDigit(c)
  {
    c as int - '0' as int
  }

  function DigitChar(d: nat): (c: char)
    requires d < 10
    ensures IsDigit(c) && DigitValue(c) == d
  {
    ('0' as int + d) as char
  }

  /** The value of a decimal digit string, `int(s, 10)`. */
  function DigitsValue(s: string): nat
    requires AllDigits(s)
    decreases |s|
  {
    if s == [] then 0 else DigitsValue(s[..|s| - 1]) * 10 + DigitValue(s[|s| - 1])
  }

  /** `str(n)` for a natural number: decimal digits without leading zeros. */
  function NatToString(n: nat): (r: string)
    ensures r != [] && AllDigits(r)
    ensures |r| > 1 ==> r[0] != '0'
    decreases n
  {
    if n < 10 then [DigitChar(n)] else NatToString(n / 10) + [DigitChar(n % 10)]
  }

  lemma {:induction false} NatToStringValue(n: nat)
    ensures DigitsValue(NatToString(n)) == n
    decreases n
  {
    if n >= 10 {
      NatToStringValue(n / 10);
      var s := NatToString(n);
      assert s[..|s| - 1] == NatToString(n / 10);
    }
  }

  lemma {:induction false} NatToStringLength(n: nat)
    ensures n < 10 ==> |NatToString(n)| == 1
    ensures n < 100 ==> |NatToString(n)| <= 2
    ensures n < 1000 ==> |NatToString(n)| <= 3
  {
    if n >= 10 {
      NatToStringLength(n / 10);
    }
  }

  /** A digit string with no leading zero is the decimal form of its own value. */
  lemma {:induction false} NatToStringOfDigits(s: string)
    requires s != [] && AllDigits(s) && (|s| > 1 ==> s[0] != '0')
    ensures NatToString(DigitsValue(s)) == s
    decreases |s|
  {
    if |s| > 1 {
      var p := s[..|s| - 1];
      NatToStringOfDigits(p);
      DigitsPositive(p);
      assert DigitsValue(s) / 10 == DigitsValue(p);
      assert DigitsValue(s) % 10 == DigitValue(s[|s| - 1]);
      assert s == p + [s[|s| - 1]];
    }
  }

  lemma {:induction false} DigitsPositive(s: string)
    requires s != [] && AllDigits(s) && s[0] != '0'
    ensures DigitsValue(s) >= 1
    decreases |s|
  {
    if |s| > 1 {
      DigitsPositive(s[..|s| - 1]);
    }
  }
}
