/**
 * `parse_owner` (run.py:244-276): splits a free-text owner cell into a
 * person's name, an e-mail address and a team written in parentheses.
 *
 * The two regular expressions are modelled as their matching procedures:
 * `EMAIL_RE` (run.py:19) as a backtracking search for
 * `[A-Za-z0-9._%+-]+@[A-Za-z0-9.-]+\.[A-Za-z]{2,}`, and the team pattern
 * (run.py:260, 264) as `\(([^)]+)\)`. run.py writes both as raw strings
 * with doubled backslashes, and in Python each `\\` there matches a literal
 * backslash, so read literally they find nothing in owner text without
 * backslashes. The model reads each doubled backslash as a single escape (a
 * literal '.', '(' or ')'), the meaning under which the owner example in
 * tests/test_run.py:66-72 parses as it expects.
 */
module Owner {
  import opened Wrappers
  import opened Text
  import opened Records

  /** `[A-Za-z0-9._%+-]` */
  predicate IsLocalChar(c: char) { IsAlnum(c) || c == '.' || c == '_' || c == '%' || c == '+' || c == '-' }

  /** `[A-Za-z0-9.-]` */
  predicate IsDomainChar(c: char) { IsAlnum(c) || c == '.' || c == '-' }

  /** `[^)]` */
  predicate NotCloseParen(c: char) { c != ')' }

  /** End of the longest run of characters satisfying `p` that starts at `i`. */
  function RunEnd(s: string, i: nat, p: char -> bool): (e: nat)
    requires i <= |s|
    ensures i <= e <= |s|
    ensures forall k :: i <= k < e ==> p(s[k])
    ensures e == |s| || !p(s[e])
    decreases |s| - i
  {
    if i < |s| && p(s[i]) then RunEnd(s, i + 1, p) else i
  }

  // ---------------------------------------------------------------------------
  // EMAIL_RE

  /**
   * `s[i..j]` is an e-mail address in the sense of `EMAIL_RE`, with the `@`
   * at `e` and the dot before the top-level domain at `d`.
   */
  predicate EmailSpan(s: string, i: int, j: int, e: int, d: int)
  {
    0 <= i < e && e + 1 < d && d + 3 <= j <= |s| &&
    (forall k :: i <= k < e ==> IsLocalChar(s[k])) && s[e] == '@' &&
    (forall k :: e < k < d ==> IsDomainChar(s[k])) && s[d] == '.' &&
    (forall k :: d < k < j ==> IsAlpha(s[k]))
  }

  /** A dot followed by two letters: where `\.[A-Za-z]{2,}` can start. */
  predicate TldDotAt(s: string, d: int)
  {
    0 <= d && d + 2 < |s| && s[d] == '.' && IsAlpha(s[d + 1]) && IsAlpha(s[d + 2])
  }

  /** The largest `d` with `lo < d <= hi` where a top-level domain can start. */
  function LastTldDot(s: string, lo: int, hi: int): (r: Option<int>)
    ensures r.Some? ==> lo < r.value <= hi && TldDotAt(s, r.value) &&
                        forall d :: r.value < d <= hi ==> !TldDotAt(s, d)
    ensures r.None? ==> forall d :: lo < d <= hi ==> !TldDotAt(s, d)
    decreases hi - lo
  {
    if hi <= lo then None else if TldDotAt(s, hi) then Some(hi) else LastTldDot(s, lo, hi - 1)
  }

  /**
   * The end of the match of `EMAIL_RE` that starts at `i`, as the
   * backtracking matcher finds it: the local part is the whole run of local
   * characters (none of them is '@'), the domain gives back characters until
   * the last dot that two letters follow, and the top-level domain takes every
   * letter after that dot.
   */
  function EmailAt(s: string, i: nat): (r: Option<nat>)
    requires i <= |s|
  {
    var e := RunEnd(s, i, IsLocalChar);
    if e == i || e == |s| || s[e] != '@' then None
    else
      var q := RunEnd(s, e + 1, IsDomainChar);
      match LastTldDot(s, e + 1, q - 1)
      case None => None
      case Some(d) => Some(RunEnd(s, d + 1, IsAlpha))
  }

  /** What `EmailAt` finds is an e-mail address. */
  lemma EmailAtSound(s: string, i: nat)
    requires i <= |s| && EmailAt(s, i).Some?
    ensures exists e, d :: EmailSpan(s, i, EmailAt(s, i).value, e, d)
  {
    var e := RunEnd(s, i, IsLocalChar);
    var q := RunEnd(s, e + 1, IsDomainChar);
    var d := LastTldDot(s, e + 1, q - 1).value;
    assert EmailSpan(s, i, EmailAt(s, i).value, e, d);
  }

  /** The first match of `EMAIL_RE` at or after position `i`, as (start, end). */
  function FirstEmail(s: string, i: nat): (r: Option<(nat, nat)>)
    requires i <= |s|
    ensures r.Some? ==> i <= r.value.0 <= |s| && EmailAt(s, r.value.0) == Some(r.value.1) &&
                        forall k :: i <= k < r.value.0 ==> EmailAt(s, k).None?
    ensures r.None? ==> forall k :: i <= k <= |s| ==> EmailAt(s, k).None?
    decreases |s| - i
  {
    match EmailAt(s, i)
    case Some(j) => Some((i, j))
    case None => if i == |s| then None else FirstEmail(s, i + 1)
  }

  /** `RunEnd` is the unique end of a run: it stops exactly at the first failing character. */
  lemma RunEndIs(s: string, i: nat, e: nat, p: char -> bool)
    requires i <= e <= |s| && (forall k :: i <= k < e ==> p(s[k])) && (e == |s| || !p(s[e]))
    ensures RunEnd(s, i, p) == e
  {
  }

  lemma {:induction false} LastTldDotIs(s: string, lo: int, hi: int, d: int)
    requires lo < d <= hi && TldDotAt(s, d)
    requires forall x :: d < x <= hi ==> !TldDotAt(s, x)
    ensures LastTldDot(s, lo, hi) == Some(d)
    decreases hi - d
  {
    if d < hi {
      LastTldDotIs(s, lo, hi - 1, d);
    }
  }

  /**
   * The match at `i` ends at `j` when the local part runs to the '@' at `e`,
   * the domain characters run to `q`, the last dot before two letters in the
   * domain is at `d`, and the letters after it run to `j`.
   */
  lemma EmailAtIs(s: string, i: nat, e: nat, q: nat, d: nat, j: nat)
    requires i < e < |s| && s[e] == '@' && forall k :: i <= k < e ==> IsLocalChar(s[k])
    requires e < q <= |s| && (forall k :: e < k < q ==> IsDomainChar(s[k])) && (q == |s| || !IsDomainChar(s[q]))
    requires e + 1 < d <= q - 1 && TldDotAt(s, d) && forall x :: d < x <= q - 1 ==> !TldDotAt(s, x)
    requires d < j <= |s| && (forall k :: d < k < j ==> IsAlpha(s[k])) && (j == |s| || !IsAlpha(s[j]))
    ensures EmailAt(s, i) == Some(j)
  {
    RunEndIs(s, i, e, IsLocalChar);
    RunEndIs(s, e + 1, q, IsDomainChar);
    LastTldDotIs(s, e + 1, q - 1, d);
    RunEndIs(s, d + 1, j, IsAlpha);
  }

  /** Every e-mail address starting at `i` ends no later than the one `EmailAt` finds. */
  lemma EmailAtComplete(s: string, i: nat, j: int, e: int, d: int)
    requires i <= |s| && EmailSpan(s, i, j, e, d)
    ensures EmailAt(s, i).Some? && j <= EmailAt(s, i).value
  {
    assert RunEnd(s, i, IsLocalChar) == e;
    var q := RunEnd(s, e + 1, IsDomainChar);
    assert j <= q;
    assert TldDotAt(s, d);
    var d' := LastTldDot(s, e + 1, q - 1).value;
    assert d <= d' && (d' == d || j <= d');
  }

  /** The search finds the leftmost e-mail address, and of those starting there the longest. */
  lemma FirstEmailFound(s: string, i: nat, j: nat)
    requires FirstEmail(s, 0) == Some((i, j))
    ensures exists e, d :: EmailSpan(s, i, j, e, d)
    ensures forall i', j', e, d :: EmailSpan(s, i', j', e, d) ==> i <= i'
    ensures forall j', e, d :: EmailSpan(s, i, j', e, d) ==> j' <= j
  {
    assert EmailAt(s, i) == Some(j);
    EmailAtSound(s, i);
    forall i', j', e, d | EmailSpan(s, i', j', e, d) ensures i <= i' {
      EmailAtComplete(s, i', j', e, d);
    }
    forall j', e, d | EmailSpan(s, i, j', e, d) ensures j' <= j {
      EmailAtComplete(s, i, j', e, d);
    }
  }

  /** When the search finds nothing, the text holds no e-mail address. */
  lemma FirstEmailNone(s: string)
    requires FirstEmail(s, 0).None?
    ensures forall i, j, e, d :: !EmailSpan(s, i, j, e, d)
  {
    forall i, j, e, d | EmailSpan(s, i, j, e, d) ensures false {
      EmailAtComplete(s, i, j, e, d);
    }
  }

  /** `emails[0].lower() if emails else ""` */
  function EmailOf(owner: string): (email: string)
  {
    match FirstEmail(owner, 0)
    case None => ""
    case Some((i, j)) => Lower(owner[i..j])
  }

  // ---------------------------------------------------------------------------
  // The parenthesised team

  /** `\(([^)]+)\)` matched at `a`: the index of the closing parenthesis. */
  function ParenAt(s: string, a: nat): (r: Option<nat>)
    requires a <= |s|
    ensures r.Some? ==> a + 1 < r.value < |s| && s[a] == '(' && s[r.value] == ')' &&
                        forall k :: a < k < r.value ==> s[k] != ')'
  {
    if a == |s| || s[a] != '(' then None
    else
      var b := RunEnd(s, a + 1, NotCloseParen);
      if b == a + 1 || b == |s| then None else Some(b)
  }

  /** `ParenAt` misses no group: any '(', text without ')', ')' is found. */
  lemma ParenAtComplete(s: string, a: nat, b: nat)
    requires a + 1 < b < |s| && s[a] == '(' && s[b] == ')'
    requires forall k :: a < k < b ==> s[k] != ')'
    ensures ParenAt(s, a) == Some(b)
  {
  }

  /** `re.search`: the leftmost group at or after `a`, as (open, close). */
  function FirstParen(s: string, a: nat): (r: Option<(nat, nat)>)
    requires a <= |s|
    ensures r.Some? ==> a <= r.value.0 <= |s| && ParenAt(s, r.value.0) == Some(r.value.1) &&
                        forall k :: a <= k < r.value.0 ==> ParenAt(s, k).None?
    ensures r.None? ==> forall k :: a <= k <= |s| ==> ParenAt(s, k).None?
    decreases |s| - a
  {
    match ParenAt(s, a)
    case Some(b) => Some((a, b))
    case None => if a == |s| then None else FirstParen(s, a + 1)
  }

  /** `re.sub(r"\(([^)]+)\)", "", s)`: the groups found left to right are deleted. */
  function RemoveParens(s: string): (r: string)
    ensures |r| <= |s|
    decreases |s|
  {
    if s == [] then []
    else match ParenAt(s, 0)
      case Some(b) => RemoveParens(s[b + 1..])
      case None => [s[0]] + RemoveParens(s[1..])
  }

  /** Removing groups only drops characters. */
  lemma {:induction false} RemoveParensKeeps(s: string)
    ensures forall k :: 0 <= k < |RemoveParens(s)| ==> RemoveParens(s)[k] in s
    decreases |s|
  {
    if s != [] {
      match ParenAt(s, 0)
      case Some(b) =>
        RemoveParensKeeps(s[b + 1..]);
        assert forall c :: c in s[b + 1..] ==> c in s;
      case None =>
        RemoveParensKeeps(s[1..]);
        assert forall c :: c in s[1..] ==> c in s;
    }
  }

  predicate OpensAt(t: string, a: int) { 0 <= a < |t| && t[a] == '(' }
  predicate ClosesAt(t: string, b: int) { 0 <= b < |t| && t[b] == ')' }

  /** No group in `t`: a '(' with a ')' anywhere after it is closed at once. */
  ghost predicate NoGroup(t: string)
  {
    forall a, b :: OpensAt(t, a) && ClosesAt(t, b) && a < b ==> ClosesAt(t, a + 1)
  }

  /** A group found at `a` opens at `a`, closes later, and is not closed at once. */
  lemma ParenAtGroup(t: string, a: nat)
    requires a <= |t| && ParenAt(t, a).Some?
    ensures OpensAt(t, a) && ClosesAt(t, ParenAt(t, a).value) && a < ParenAt(t, a).value
    ensures !ClosesAt(t, a + 1)
  {
  }

  lemma NoGroupHasNoMatch(t: string)
    requires NoGroup(t)
    ensures forall a :: 0 <= a <= |t| ==> ParenAt(t, a).None?
  {
    forall a | 0 <= a <= |t| ensures ParenAt(t, a).None? {
      if ParenAt(t, a).Some? {
        ParenAtGroup(t, a);
        assert false;
      }
    }
  }

  /** A '(' that opens no group while a ')' follows is closed at once. */
  lemma OpenThenClose(s: string)
    requires s != [] && s[0] == '(' && ParenAt(s, 0).None? && ')' in s[1..]
    ensures |s| > 1 && s[1] == ')'
  {
    var k :| 0 <= k < |s| - 1 && s[1..][k] == ')';
    var b := RunEnd(s, 1, NotCloseParen);
    assert b <= k + 1 < |s|;
  }

  lemma {:induction false} RemoveParensNoGroup(s: string)
    ensures NoGroup(RemoveParens(s))
    decreases |s|
  {
    if s != [] {
      match ParenAt(s, 0)
      case Some(b) =>
        RemoveParensNoGroup(s[b + 1..]);
      case None =>
        var rest := RemoveParens(s[1..]);
        RemoveParensNoGroup(s[1..]);
        RemoveParensKeeps(s[1..]);
        var r := [s[0]] + rest;
        assert RemoveParens(s) == r;
        forall a, c | OpensAt(r, a) && ClosesAt(r, c) && a < c
          ensures ClosesAt(r, a + 1)
        {
          if a > 0 {
            assert OpensAt(rest, a - 1) && ClosesAt(rest, c - 1);
            assert ClosesAt(rest, a);
            assert r[a + 1] == rest[a];
          } else {
            assert r[c] == rest[c - 1] && rest[c - 1] in s[1..];
            OpenThenClose(s);
            assert ParenAt(s[1..], 0).None?;
            assert rest == [')'] + RemoveParens(s[1..][1..]);
          }
        }
    }
  }

  /** After re.sub no group is left for a second search to find. */
  lemma RemoveParensRemovesAll(s: string)
    ensures FirstParen(RemoveParens(s), 0).None?
  {
    RemoveParensNoGroup(s);
    NoGroupHasNoMatch(RemoveParens(s));
  }

  /** Text without a group is left alone. */
  lemma {:induction false} RemoveParensWithoutGroup(s: string)
    requires FirstParen(s, 0).None?
    ensures RemoveParens(s) == s
    decreases |s|
  {
    if s != [] {
      assert ParenAt(s, 0).None?;
      assert FirstParen(s[1..], 0).None? by {
        forall k | 0 <= k <= |s| - 1 ensures ParenAt(s[1..], k).None? {
          if ParenAt(s[1..], k).Some? {
            var b := ParenAt(s[1..], k).value;
            assert s[k + 1] == '(' && s[b + 1] == ')';
            forall m | k + 1 < m < b + 1 ensures s[m] != ')' { assert s[m] == s[1..][m - 1]; }
            ParenAtComplete(s, k + 1, b + 1);
          }
        }
      }
      RemoveParensWithoutGroup(s[1..]);
      assert s == [s[0]] + s[1..];
    }
  }

  // ---------------------------------------------------------------------------
  // parse_owner

  /** The tuple `parse_owner` returns: owner name, e-mail, team, steps. */
  datatype OwnerResult = OwnerResult(owner: string, email: string, team: string, steps: seq<Step>)

  /** `owner_email.split("@")[0].replace(".", " ").replace("_", " ")` */
  function LocalPartName(email: string): (r: string)
  {
    ReplaceChar(ReplaceChar(Split(email, '@')[0], '.', ' '), '_', ' ')
  }

  /** `" ".join(word.capitalize() for word in name.split())` */
  function CapitalizeWords(name: string): (r: string)
  {
    var ws := Words(name);
    Join(seq(|ws|, k requires 0 <= k < |ws| => Capitalize(ws[k])), " ")
  }

  /** `parse_owner(owner_raw)`, `None` for a missing cell. */
  function ParseOwner(ownerRaw: Option<string>): OwnerResult
  {
    if ownerRaw.None? then OwnerResult("", "", "", [])
    else
      var owner := Strip(ownerRaw.value);
      if owner == "" then OwnerResult("", "", "", []) else OwnerFromTrimmed(owner)
  }

  /** The owner text once the e-mail address (lower-cased, case-sensitively) is replaced away. */
  function AfterEmail(owner: string): string
  {
    var email := EmailOf(owner);
    if email != "" then Strip(Replace(owner, email, "")) else owner
  }

  /** The team: the first parenthesised group, trimmed, or "" when there is none. */
  function TeamOf(owner: string): string
  {
    match FirstParen(owner, 0)
    case None => ""
    case Some((a, b)) => Strip(owner[a + 1..b])
  }

  /** The owner text once every parenthesised group is removed. */
  function AfterTeam(owner: string): string
  {
    if FirstParen(owner, 0).Some? then Strip(RemoveParens(owner)) else owner
  }

  /** What is left of the owner text for the person's name. */
  function NameText(owner: string): string
  {
    Strip(AfterTeam(AfterEmail(owner)))
  }

  /** The part of `parse_owner` after the cell has been trimmed and found non-empty. */
  function OwnerFromTrimmed(owner: string): OwnerResult
  {
    var rest := AfterEmail(owner);
    OwnerOf(EmailOf(owner), NameText(owner), TeamOf(rest), FirstParen(rest, 0).Some?)
  }

  /**
   * The result of `parse_owner` once the e-mail address, the text left for the
   * name and the team are known (run.py:266-276).
   */
  function OwnerOf(email: string, nameText: string, team: string, teamFound: bool): OwnerResult
  {
    var fromLocal := nameText == "" && email != "";
    var name := if fromLocal then LocalPartName(email) else nameText;
    var steps := OwnerSteps(email, teamFound, fromLocal);
    if name == "" && team != "" && email == "" then OwnerResult("", "", Title(team), steps)
    else
      OwnerResult(if name != "" then CapitalizeWords(name) else "", email,
                  if team != "" then Title(team) else "", steps)
  }

  // ---------------------------------------------------------------------------
  // Properties

  /** `s[i..j]` is the leftmost e-mail address of `s`, and the longest starting there. */
  ghost predicate LeftmostLongestEmail(s: string, i: int, j: int)
  {
    0 <= i <= j <= |s| && (exists e, d :: EmailSpan(s, i, j, e, d)) &&
    (forall i', j', e, d :: EmailSpan(s, i', j', e, d) ==> i <= i') &&
    (forall j', e, d :: EmailSpan(s, i, j', e, d) ==> j' <= j)
  }

  /**
   * The e-mail is empty exactly when the text holds no address; otherwise it
   * is the leftmost (and then longest) address, lower-cased.
   */
  lemma EmailOfSpec(owner: string)
    ensures EmailOf(owner) == "" <==> forall i, j, e, d :: !EmailSpan(owner, i, j, e, d)
    ensures EmailOf(owner) != "" ==>
              exists i, j :: LeftmostLongestEmail(owner, i, j) && EmailOf(owner) == Lower(owner[i..j])
    ensures NoUpper(EmailOf(owner))
  {
    match FirstEmail(owner, 0)
    case None => FirstEmailNone(owner);
    case Some((i, j)) =>
      FirstEmailFound(owner, i, j);
      var e, d :| EmailSpan(owner, i, j, e, d);
      assert LeftmostLongestEmail(owner, i, j);
      assert |EmailOf(owner)| == j - i > 0;
  }

  /** A slice of a text without groups has none. */
  lemma NoGroupSlice(t: string, m: nat, n: nat)
    requires NoGroup(t) && m <= n <= |t|
    ensures NoGroup(t[m..n])
  {
    var u := t[m..n];
    forall a, b | OpensAt(u, a) && ClosesAt(u, b) && a < b ensures ClosesAt(u, a + 1) {
      assert OpensAt(t, m + a) && ClosesAt(t, m + b);
      assert ClosesAt(t, m + a + 1);
      assert u[a + 1] == t[m + a + 1];
    }
  }

  lemma NoGroupOfSlice(t: string, u: string, m: nat, n: nat)
    requires NoGroup(t) && m <= n <= |t| && u == t[m..n]
    ensures NoGroup(u)
  {
    NoGroupSlice(t, m, n);
  }

  /** A text without a match has no group in the sense of `NoGroup`. */
  lemma NoMatchIsNoGroup(t: string)
    requires FirstParen(t, 0).None?
    ensures NoGroup(t)
  {
    forall a, b | OpensAt(t, a) && ClosesAt(t, b) && a < b ensures ClosesAt(t, a + 1) {
      assert ParenAt(t, a).None?;
      var c := RunEnd(t, a + 1, NotCloseParen);
      assert c <= b;
    }
  }

  /** Trimming keeps a text free of groups. */
  lemma StripNoGroup(t: string)
    requires NoGroup(t)
    ensures NoGroup(Strip(t))
  {
    var l := StripLeft(t);
    NoGroupOfSlice(t, l, |t| - |l|, |t|);
    var r := StripRight(l);
    NoGroupOfSlice(l, r, 0, |r|);
  }

  /** Once the groups are removed, none is left for the name: a second search finds nothing. */
  lemma AfterTeamHasNoGroup(u: string)
    ensures FirstParen(Strip(AfterTeam(u)), 0).None?
  {
    AfterTeamNoGroup(u);
    StripNoGroup(AfterTeam(u));
    NoGroupNoFirst(Strip(AfterTeam(u)));
  }

  lemma AfterTeamNoGroup(u: string)
    ensures NoGroup(AfterTeam(u))
  {
    if FirstParen(u, 0).Some? {
      RemoveParensNoGroup(u);
      StripNoGroup(RemoveParens(u));
    } else {
      NoMatchIsNoGroup(u);
    }
  }

  lemma NoGroupNoFirst(t: string)
    requires NoGroup(t)
    ensures FirstParen(t, 0).None?
  {
    NoGroupHasNoMatch(t);
  }

  /** The name is never taken from text that still holds a parenthesised group. */
  lemma NameTextHasNoGroup(owner: string)
    ensures FirstParen(NameText(owner), 0).None?
  {
    AfterTeamHasNoGroup(AfterEmail(owner));
  }

  /** The words of the capitalised name are the name's words, each capitalised, joined by single spaces. */
  lemma CapitalizeWordsSpec(name: string)
    ensures var ws := Words(name);
      Words(CapitalizeWords(name)) == seq(|ws|, k requires 0 <= k < |ws| => Capitalize(ws[k]))
    ensures Trimmed(CapitalizeWords(name))
    ensures CapitalizeWords(name) == "" <==> Words(name) == []
  {
    var ws := Words(name);
    var cs := seq(|ws|, k requires 0 <= k < |ws| => Capitalize(ws[k]));
    assert forall k :: 0 <= k < |cs| ==> IsWord(cs[k]);
    WordsOfJoin(cs);
    JoinWordsTrimmed(cs);
  }

  /** A name taken from the local part holds no '@', '.' or '_'. */
  lemma LocalPartNameShape(email: string)
    ensures var n := LocalPartName(email); '@' !in n && '.' !in n && '_' !in n
  {
    var n := LocalPartName(email);
    var p := Split(email, '@')[0];
    assert '@' !in p;
    forall k | 0 <= k < |n| ensures n[k] != '@' && n[k] != '.' && n[k] != '_' {
      assert n[k] == ReplaceChar(p, '.', ' ')[k] || n[k] == ' ';
    }
  }

  /** Nothing is recorded for a missing or blank owner, and `owner_trim` for every other. */
  lemma ParseOwnerBlank(ownerRaw: Option<string>)
    ensures var r := ParseOwner(ownerRaw);
      (r.steps == [] <==> ownerRaw.None? || Strip(ownerRaw.value) == "") &&
      (r.steps == [] ==> r == OwnerResult("", "", "", [])) &&
      (r.steps != [] ==> r.steps[0] == OwnerTrim)
  {
  }

  /** The steps of a trimmed, non-empty owner text, in the order they are taken. */
  function OwnerSteps(email: string, teamFound: bool, fromLocal: bool): (r: seq<Step>)
    ensures |r| >= 1 && r[0] == OwnerTrim
    ensures OwnerEmailExtract in r <==> email != ""
    ensures OwnerTeamParen in r <==> teamFound
    ensures OwnerFromEmailLocalpart in r <==> fromLocal
  {
    [OwnerTrim] + (if email != "" then [OwnerEmailExtract] else []) +
    (if teamFound then [OwnerTeamParen] else []) +
    (if fromLocal then [OwnerFromEmailLocalpart] else [])
  }

  /**
   * The name comes, in order of preference, from what is left of the text,
   * from the e-mail's local part, or is empty; the team is the title-cased
   * first group.
   */
  lemma OwnerNameSpec(owner: string)
    ensures var r := OwnerFromTrimmed(owner);
      (NameText(owner) != "" ==> r.owner == CapitalizeWords(NameText(owner))) &&
      (NameText(owner) == "" && r.email != "" ==> r.owner == CapitalizeWords(LocalPartName(r.email))) &&
      (NameText(owner) == "" && r.email == "" ==> r.owner == "")
    ensures var r := OwnerFromTrimmed(owner);
      var team := TeamOf(AfterEmail(owner));
      r.team == (if team == "" then "" else Title(team))
  {
    var rest := AfterEmail(owner);
    OwnerOfSpec(EmailOf(owner), NameText(owner), TeamOf(rest), FirstParen(rest, 0).Some?);
  }

  lemma OwnerOfSpec(email: string, n: string, team: string, teamFound: bool)
    ensures var r := OwnerOf(email, n, team, teamFound);
      r.email == email &&
      (n != "" ==> r.owner == CapitalizeWords(n)) &&
      (n == "" && email != "" ==> r.owner == CapitalizeWords(LocalPartName(email))) &&
      (n == "" && email == "" ==> r.owner == "") &&
      r.team == (if team == "" then "" else Title(team))
  {
    var name := if n == "" && email != "" then LocalPartName(email) else n;
    if name == "" {
      CapitalizeWordsSpec(name);
      assert Words(name) == [];
    }
  }

  /**
   * The address is removed by its lower-cased text, so an address written
   * with capitals, whose lower-cased text does not occur, stays in the name.
   */
  lemma CapitalisedEmailStays(owner: string)
    requires Trimmed(owner) && EmailOf(owner) != "" && !Contains(owner, EmailOf(owner))
    ensures AfterEmail(owner) == owner
  {
    ReplaceWithoutOccurrence(owner, EmailOf(owner), "");
    StripOfTrimmed(owner);
  }
}
