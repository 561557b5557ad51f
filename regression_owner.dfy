/**
 * The owner example of tests/test_run.py:66-72, traced through the matchers:
 * "priya (platform) priya@corp.example.com" gives the name "Priya", the
 * address "priya@corp.example.com" and the team "Platform". It also traces
 * "Bob@X.io", an address written with capitals, which the lower-cased address
 * does not match.
 */
module OwnerRegression {
  import opened Wrappers
  import opened Text
  import opened Records
  import opened Owner

  // ---------------------------------------------------------------------------
  // Helpers that fix what the searches return

  /** No address starts at `k` when no '@' comes before a character `b` outside the local part. */
  lemma NoEmailBefore(s: string, k: nat, b: nat)
    requires k <= b < |s| && !IsLocalChar(s[b]) && s[b] != '@'
    requires forall i :: k <= i < b ==> s[i] != '@'
    ensures EmailAt(s, k).None?
  {
    var e := RunEnd(s, k, IsLocalChar);
    assert e <= b;
  }

  /** The search returns the first start of a match. */
  lemma FirstEmailAt(s: string, i: nat, n: nat, j: nat)
    requires i <= n <= |s| && EmailAt(s, n) == Some(j)
    requires forall k :: i <= k < n ==> EmailAt(s, k).None?
    ensures FirstEmail(s, i) == Some((n, j))
  {
    var r := FirstEmail(s, i);
    assert EmailAt(s, n).Some?;
    assert r.Some? ==> EmailAt(s, r.value.0).Some?;
  }

  lemma {:induction false} FirstParenAt(s: string, a: nat, n: nat, b: nat)
    requires a <= n <= |s| && ParenAt(s, n) == Some(b)
    requires forall k :: a <= k < n ==> ParenAt(s, k).None?
    ensures FirstParen(s, a) == Some((n, b))
    decreases n - a
  {
    if a < n {
      FirstParenAt(s, a + 1, n, b);
    }
  }

  /** Replacing scans past a prefix with no occurrence unchanged. */
  lemma {:induction false} ReplaceFromSkip(s: string, pat: string, rep: string, i: nat, n: nat)
    requires |pat| > 0 && i <= n && n + |pat| <= |s|
    requires forall k :: i <= k < n ==> !MatchesAt(s, pat, k)
    ensures ReplaceFrom(s, pat, rep, i) == s[i..n] + ReplaceFrom(s, pat, rep, n)
    decreases n - i
  {
    if i < n {
      ReplaceFromSkip(s, pat, rep, i + 1, n);
      var r := ReplaceFrom(s, pat, rep, n);
      assert !MatchesAt(s, pat, i);
      assert ReplaceFrom(s, pat, rep, i) == [s[i]] + ReplaceFrom(s, pat, rep, i + 1);
      assert s[i..n] == [s[i]] + s[i + 1..n];
      assert [s[i]] + (s[i + 1..n] + r) == ([s[i]] + s[i + 1..n]) + r;
    } else {
      assert s[i..n] == [];
    }
  }

  /** A text without '(' passes through the removal of groups unchanged. */
  lemma {:induction false} RemoveParensPlain(p: string, rest: string)
    requires forall k :: 0 <= k < |p| ==> p[k] != '('
    ensures RemoveParens(p + rest) == p + RemoveParens(rest)
    decreases |p|
  {
    if p != [] {
      var s := p + rest;
      assert s[0] == p[0] && s[1..] == p[1..] + rest;
      assert ParenAt(s, 0).None?;
      assert RemoveParens(s) == [s[0]] + RemoveParens(s[1..]);
      RemoveParensPlain(p[1..], rest);
      assert p == [p[0]] + p[1..];
    } else {
      assert p + rest == rest;
    }
  }

  // ---------------------------------------------------------------------------
  // The e-mail address

  lemma ExampleEmailAt(s: string)
    requires s == "priya (platform) priya@corp.example.com"
    ensures EmailAt(s, 17) == Some(39)
  {
    EmailAtIs(s, 17, 22, 39, 35, 39);
  }

  lemma ExampleNoEarlierEmail(s: string)
    requires s == "priya (platform) priya@corp.example.com"
    ensures forall k :: 0 <= k < 17 ==> EmailAt(s, k).None?
  {
    forall k | 0 <= k < 17 ensures EmailAt(s, k).None? {
      NoEmailBefore(s, k, 16);
    }
  }

  lemma ExampleFirstEmail(s: string)
    requires s == "priya (platform) priya@corp.example.com"
    ensures FirstEmail(s, 0) == Some((17, 39))
  {
    ExampleEmailAt(s);
    ExampleNoEarlierEmail(s);
    FirstEmailAt(s, 0, 17, 39);
  }

  lemma ExampleEmail(s: string)
    requires s == "priya (platform) priya@corp.example.com"
    ensures EmailOf(s) == "priya@corp.example.com"
  {
    ExampleFirstEmail(s);
    ExampleEmailSlice(s);
    ExampleEmailLower("priya@corp.example.com");
  }

  lemma SliceOfAppend(p: string, e: string)
    ensures (p + e)[|p|..|p| + |e|] == e && (p + e)[..|p|] == p
  {
  }

  lemma ExampleEmailSlice(s: string)
    requires s == "priya (platform) priya@corp.example.com"
    ensures s[17..39] == "priya@corp.example.com" && s[..17] == "priya (platform) "
  {
    assert s == "priya (platform) " + "priya@corp.example.com";
    SliceOfAppend("priya (platform) ", "priya@corp.example.com");
  }

  lemma ExampleEmailLower(e: string)
    requires e == "priya@corp.example.com"
    ensures Lower(e) == e
  {
    assert NoUpper(e);
    LowerOfLowerCase(e);
  }

  lemma ExampleNoEarlierMatch(s: string, email: string)
    requires s == "priya (platform) priya@corp.example.com" && email == "priya@corp.example.com"
    ensures forall k :: 0 <= k < 17 ==> !MatchesAt(s, email, k)
  {
    forall k | 0 <= k < 17 ensures !MatchesAt(s, email, k) {
      MatchesAtIff(s, email, k);
      assert s[k + 5] != '@' && email[5] == '@';
      assert s[k..k + 22][5] == s[k + 5];
    }
  }

  lemma ExampleReplaced(s: string, email: string)
    requires s == "priya (platform) priya@corp.example.com" && email == "priya@corp.example.com"
    ensures Replace(s, email, "") == s[..17]
  {
    ExampleNoEarlierMatch(s, email);
    ReplaceFromSkip(s, email, "", 0, 17);
    ExampleMatch(s, email);
    ReplaceLast(s, email, "", 17);
    assert s[0..17] + [] == s[..17];
  }

  lemma ExampleMatch(s: string, email: string)
    requires s == "priya (platform) priya@corp.example.com" && email == "priya@corp.example.com"
    ensures MatchesAt(s, email, 17) && 17 + |email| == |s|
  {
    MatchesAtIff(s, email, 17);
    ExampleEmailSlice(s);
  }

  /** An occurrence that ends the text is replaced and nothing follows. */
  lemma ReplaceLast(s: string, pat: string, rep: string, n: nat)
    requires |pat| > 0 && n + |pat| == |s| && MatchesAt(s, pat, n)
    ensures ReplaceFrom(s, pat, rep, n) == rep
  {
    assert ReplaceFrom(s, pat, rep, n + |pat|) == [];
  }

  /** A trimmed text followed by one space is trimmed back to itself. */
  lemma StripTrailingSpace(w: string, sp: string)
    requires w != "" && Trimmed(w) && sp == " "
    ensures Strip(w + sp) == w
  {
    var t := w + sp;
    assert !IsSpace(t[0]) && StripLeft(t) == t;
    assert IsSpace(t[|t| - 1]) && t[..|t| - 1] == w;
    assert StripRight(t) == StripRight(w);
    assert StripRight(w) == w;
  }

  lemma ExampleRestStripped(n: string)
    requires n == "priya (platform) "
    ensures Strip(n) == "priya (platform)"
  {
    var w := "priya (platform)";
    assert n == w + " ";
    StripTrailingSpace(w, " ");
  }

  lemma ExampleAfterEmail(s: string)
    requires s == "priya (platform) priya@corp.example.com"
    ensures AfterEmail(s) == "priya (platform)"
  {
    ExampleEmail(s);
    ExampleReplaced(s, "priya@corp.example.com");
    ExampleEmailSlice(s);
    ExampleRestStripped("priya (platform) ");
  }

  // ---------------------------------------------------------------------------
  // The team and the name

  lemma ExampleGroup(t: string)
    requires t == "priya (platform)"
    ensures FirstParen(t, 0) == Some((6, 15))
  {
    ParenAtComplete(t, 6, 15);
    FirstParenAt(t, 0, 6, 15);
  }

  lemma ExampleTeamSlice(t: string)
    requires t == "priya (platform)"
    ensures t[7..15] == "platform"
  {
  }

  /** Letters after a letter are lower-cased, so a lower-case word stays as it is. */
  lemma {:induction false} TitleFromLowerWord(s: string)
    requires forall i :: 0 <= i < |s| ==> IsLower(s[i])
    ensures TitleFrom(s, true) == s
    decreases |s|
  {
    if s != [] {
      TitleFromLowerWord(s[1..]);
      assert IsAlpha(s[0]) && LowerChar(s[0]) == s[0];
      assert s == [s[0]] + s[1..];
    }
  }

  lemma ExampleTitle(w: string)
    requires w == "platform"
    ensures Strip(w) == w && Title(w) == "Platform"
  {
    StripOfTrimmed(w);
    TitleFromLowerWord(w[1..]);
    assert Title(w) == [UpperChar(w[0])] + w[1..];
    assert UpperChar(w[0]) == 'P';
  }

  lemma ExampleTeam(t: string)
    requires t == "priya (platform)"
    ensures TeamOf(t) == "platform" && Title("platform") == "Platform"
  {
    ExampleGroup(t);
    ExampleTeamSlice(t);
    ExampleTitle("platform");
  }

  lemma ExampleGroupRemoved(g: string)
    requires g == "(platform)"
    ensures RemoveParens(g) == []
  {
    RunEndIs(g, 1, 9, NotCloseParen);
    assert ParenAt(g, 0) == Some(9);
    assert g[10..] == [];
  }

  lemma ExampleRemoved(t: string)
    requires t == "priya (platform)"
    ensures RemoveParens(t) == "priya "
  {
    ExampleGroupRemoved("(platform)");
    assert t == "priya " + "(platform)";
    RemoveParensPlain("priya ", "(platform)");
  }

  lemma ExampleNameStripped(n: string)
    requires n == "priya "
    ensures Strip(n) == "priya" && Strip(Strip(n)) == "priya"
  {
    var w := "priya";
    assert n == w + " ";
    StripTrailingSpace(w, " ");
    StripOfTrimmed(w);
  }

  lemma ExampleAfterTeam(t: string)
    requires t == "priya (platform)"
    ensures Strip(AfterTeam(t)) == "priya"
  {
    ExampleGroup(t);
    ExampleRemoved(t);
    ExampleNameStripped("priya ");
  }

  lemma ExampleCapitalized()
    ensures CapitalizeWords("priya") == "Priya"
  {
    var w := "priya";
    assert IndexOfSpace(w, 0) == 5;
    assert w[..5] == w && w[5..] == [];
    assert Words(w) == [w];
    assert Capitalize(w) == "Priya";
    var cs := seq(1, k requires 0 <= k < 1 => Capitalize([w][k]));
    assert cs == ["Priya"];
  }

  lemma OwnerOfAll(email: string, n: string, team: string)
    requires email != "" && n != "" && team != ""
    ensures OwnerOf(email, n, team, true) ==
      OwnerResult(CapitalizeWords(n), email, Title(team), [OwnerTrim, OwnerEmailExtract, OwnerTeamParen])
  {
  }

  lemma ParseOwnerOf(s: string, email: string, n: string, team: string)
    requires s != "" && Strip(s) == s && EmailOf(s) == email && NameText(s) == n
    requires TeamOf(AfterEmail(s)) == team && FirstParen(AfterEmail(s), 0).Some?
    ensures ParseOwner(Some(s)) == OwnerOf(email, n, team, true)
  {
  }

  lemma ExampleNameText(s: string)
    requires s == "priya (platform) priya@corp.example.com"
    ensures AfterEmail(s) == "priya (platform)" && NameText(s) == "priya"
  {
    ExampleAfterEmail(s);
    ExampleAfterTeam("priya (platform)");
  }

  /** The name comes from the text before the group, the team from the group. */
  lemma OwnerWithTeamAndEmail(s: string)
    requires s == "priya (platform) priya@corp.example.com"
    ensures var r := ParseOwner(Some(s));
      r.owner == "Priya" && r.email == "priya@corp.example.com" && r.team == "Platform" &&
      OwnerEmailExtract in r.steps && OwnerTeamParen in r.steps
  {
    StripOfTrimmed(s);
    ExampleEmail(s);
    ExampleNameText(s);
    ExampleTeam("priya (platform)");
    ExampleGroup("priya (platform)");
    ParseOwnerOf(s, "priya@corp.example.com", "priya", "platform");
    OwnerOfAll("priya@corp.example.com", "priya", "platform");
    ExampleCapitalized();
  }

  // ---------------------------------------------------------------------------
  // An address written with capitals (see Owner.CapitalisedEmailStays)

  /** The owner text "Bob@X.io" yields the address "bob@x.io" ... */
  lemma CapitalisedEmailExample(s: string)
    requires s == "Bob@X.io"
    ensures EmailOf(s) == "bob@x.io"
  {
    EmailAtIs(s, 0, 3, 8, 5, 8);
    assert FirstEmail(s, 0) == Some((0, 8));
    assert s[0..8] == s;
    CapitalisedEmailLower(s);
  }

  lemma CapitalisedEmailLower(s: string)
    requires s == "Bob@X.io"
    ensures Lower(s) == "bob@x.io"
  {
  }

  /** ... which does not occur in it. */
  lemma CapitalisedEmailAbsent(s: string, email: string)
    requires s == "Bob@X.io" && email == "bob@x.io"
    ensures !Contains(s, email)
  {
    ContainsIff(s, email);
    forall j: nat
      ensures !MatchesAt(s, email, j)
    {
      if j + |email| <= |s| {
        assert s[j..j + |email|][0] == s[0] != email[0];
      }
    }
  }
}
