/**
 * `normalize_mac` (run.py:225-241): keeps the hexadecimal digits of the
 * trimmed cell and, when exactly twelve remain, writes them as six
 * lower-case pairs joined by ':'.
 */
module Mac {
  import opened Wrappers
  import opened Text
  import opened Records

  /** `re.sub(r"[^0-9A-Fa-f]", "", s)`: the hexadecimal digits of `s`, in order. */
  function HexOnly(s: string): (r: string)
    ensures |r| <= |s|
    decreases |s|
  {
    if s == [] then [] else (if IsHexDigit(s[0]) then [s[0]] else []) + HexOnly(s[1..])
  }

  /** `re.fullmatch(r"[0-9A-Fa-f]{12}", s)` */
  predicate Hex12(s: string)
  {
    |s| == 12 && forall i :: 0 <= i < |s| ==> IsHexDigit(s[i])
  }

  /** `":".join(h[i : i + 2] for i in range(0, 12, 2)).lower()` */
  function MacText(h: string): string
    requires |h| == 12
  {
    Lower(Join([h[0..2], h[2..4], h[4..6], h[6..8], h[8..10], h[10..12]], ":"))
  }

  /** The tuple `normalize_mac` returns: mac, mac_valid, steps, issues. */
  datatype MacResult = MacResult(mac: string, valid: string, steps: seq<Step>, issues: seq<Issue>)

  /** `normalize_mac(mac_raw)`, `None` for a missing cell. */
  function NormalizeMac(macRaw: Option<string>): MacResult
  {
    if macRaw.None? || Strip(macRaw.value) == "" then MacResult("", "", [MacMissing], [])
    else
      var macStr := Strip(macRaw.value);
      var hexOnly := HexOnly(macStr);
      if |hexOnly| == 12 && Hex12(hexOnly) then
        MacResult(MacText(hexOnly), "true", [MacTrim, MacHexExtract, MacNormalize], [])
      else
        MacResult(macStr, "false", [MacTrim], [Issue("mac", "invalid_mac", macRaw.value, None)])
  }

  // ---------------------------------------------------------------------------
  // Properties

  lemma JoinOf2(e: string, f: string, sep: string)
    ensures Join([e, f], sep) == e + sep + f
  {
    assert [e, f][1..] == [f];
  }

  lemma JoinOf3(d: string, e: string, f: string, sep: string)
    ensures Join([d, e, f], sep) == d + sep + (e + sep + f)
  {
    assert [d, e, f][1..] == [e, f];
    JoinOf2(e, f, sep);
  }

  lemma JoinOf4(c: string, d: string, e: string, f: string, sep: string)
    ensures Join([c, d, e, f], sep) == c + sep + (d + sep + (e + sep + f))
  {
    assert [c, d, e, f][1..] == [d, e, f];
    JoinOf3(d, e, f, sep);
  }

  lemma JoinOf5(b: string, c: string, d: string, e: string, f: string, sep: string)
    ensures Join([b, c, d, e, f], sep) == b + sep + (c + sep + (d + sep + (e + sep + f)))
  {
    assert [b, c, d, e, f][1..] == [c, d, e, f];
    JoinOf4(c, d, e, f, sep);
  }

  lemma JoinOf6(a: string, b: string, c: string, d: string, e: string, f: string, sep: string)
    ensures Join([a, b, c, d, e, f], sep) == a + sep + (b + sep + (c + sep + (d + sep + (e + sep + f))))
  {
    assert [a, b, c, d, e, f][1..] == [b, c, d, e, f];
    JoinOf5(b, c, d, e, f, sep);
  }

  /** Lower-casing a concatenation lower-cases each part. */
  lemma LowerAppend(x: string, y: string)
    ensures Lower(x + y) == Lower(x) + Lower(y)
  {
    assert forall i :: 0 <= i < |x + y| ==> Lower(x + y)[i] == (Lower(x) + Lower(y))[i];
  }

  /** Lower-casing a block, one separator without letters, and the rest. */
  lemma LowerPiece(x: string, sep: string, rest: string)
    requires Lower(sep) == sep
    ensures Lower(x + sep + rest) == Lower(x) + sep + Lower(rest)
  {
    LowerAppend(x + sep, rest);
    LowerAppend(x, sep);
  }

  /** The six lower-cased pairs of the digits, separated by ':'. */
  lemma MacTextPieces(h: string)
    requires |h| == 12
    ensures MacText(h) == Lower(h[0..2]) + ":" + (Lower(h[2..4]) + ":" + (Lower(h[4..6]) + ":" +
                          (Lower(h[6..8]) + ":" + (Lower(h[8..10]) + ":" + Lower(h[10..12])))))
  {
    var p0, p1, p2, p3, p4, p5 := h[0..2], h[2..4], h[4..6], h[6..8], h[8..10], h[10..12];
    var colon := ":";
    assert Lower(colon) == colon by {
      assert LowerChar(colon[0]) == colon[0];
    }
    JoinOf6(p0, p1, p2, p3, p4, p5, colon);
    var j4 := p4 + colon + p5;
    var j3 := p3 + colon + j4;
    var j2 := p2 + colon + j3;
    var j1 := p1 + colon + j2;
    LowerPiece(p4, colon, p5);
    LowerPiece(p3, colon, j4);
    LowerPiece(p2, colon, j3);
    LowerPiece(p1, colon, j2);
    LowerPiece(p0, colon, j1);
  }

  /** What remains after dropping the non-hexadecimal characters is hexadecimal digits only. */
  lemma {:induction false} HexOnlyDigits(s: string)
    ensures forall i :: 0 <= i < |HexOnly(s)| ==> IsHexDigit(HexOnly(s)[i])
    decreases |s|
  {
    if s != [] {
      HexOnlyDigits(s[1..]);
    }
  }

  lemma {:induction false} HexOnlyAppend(a: string, b: string)
    ensures HexOnly(a + b) == HexOnly(a) + HexOnly(b)
    decreases |a|
  {
    if a != [] {
      assert (a + b)[0] == a[0];
      assert (a + b)[1..] == a[1..] + b;
      HexOnlyAppend(a[1..], b);
      var h := if IsHexDigit(a[0]) then [a[0]] else [];
      assert HexOnly(a + b) == h + (HexOnly(a[1..]) + HexOnly(b));
      assert HexOnly(a) == h + HexOnly(a[1..]);
    } else {
      assert a + b == b;
    }
  }

  lemma {:induction false} HexOnlyOfHex(s: string)
    requires forall i :: 0 <= i < |s| ==> IsHexDigit(s[i])
    ensures HexOnly(s) == s
    decreases |s|
  {
    if s != [] {
      HexOnlyOfHex(s[1..]);
    }
  }

  /** Dropping non-digits from a digit block, a separator without digits and the rest. */
  lemma HexOnlyPiece(x: string, sep: string, rest: string)
    requires HexOnly(x) == x && HexOnly(sep) == []
    ensures HexOnly(x + sep + rest) == x + HexOnly(rest)
  {
    HexOnlyAppend(x + sep, rest);
    HexOnlyAppend(x, sep);
  }

  lemma HexOnlyColon(colon: string)
    requires colon == ":"
    ensures HexOnly(colon) == []
  {
    assert colon[1..] == [];
  }

  /** A pair of hexadecimal digits is kept whole. */
  lemma HexPair(x: string)
    requires |x| == 2 && IsHexDigit(x[0]) && IsHexDigit(x[1])
    ensures HexOnly(x) == x
  {
    assert x[1..][1..] == [];
  }

  /** Dropping non-digits and lower-casing commute. */
  lemma {:induction false} HexOnlyOfLower(s: string)
    ensures HexOnly(Lower(s)) == Lower(HexOnly(s))
    decreases |s|
  {
    if s != [] {
      var head := if IsHexDigit(s[0]) then [s[0]] else [];
      assert Lower(s)[0] == LowerChar(s[0]) && Lower(s)[1..] == Lower(s[1..]);
      HexOnlyOfLower(s[1..]);
      LowerAppend(head, HexOnly(s[1..]));
      assert Lower(head) == if IsHexDigit(s[0]) then [LowerChar(s[0])] else [];
    }
  }

  /** The six pairs of a twelve-character text, put back together. */
  lemma PairsOf12(h: string)
    requires |h| == 12
    ensures h[0..2] + (h[2..4] + (h[4..6] + (h[6..8] + (h[8..10] + h[10..12])))) == h
  {
    assert h[10..12] == h[10..];
    assert h[8..10] + h[10..] == h[8..];
    assert h[6..8] + h[8..] == h[6..];
    assert h[4..6] + h[6..] == h[4..];
    assert h[2..4] + h[4..] == h[2..];
    assert h[0..2] + h[2..] == h;
  }

  /** Joining the pairs of twelve hexadecimal digits with ':' adds no digit. */
  lemma HexOnlyOfJoinedPairs(h: string)
    requires Hex12(h)
    ensures HexOnly(Join([h[0..2], h[2..4], h[4..6], h[6..8], h[8..10], h[10..12]], ":")) == h
  {
    var p0, p1, p2, p3, p4, p5 := h[0..2], h[2..4], h[4..6], h[6..8], h[8..10], h[10..12];
    var colon := ":";
    HexOnlyColon(colon);
    JoinOf6(p0, p1, p2, p3, p4, p5, colon);
    HexPair(p0);
    HexPair(p1);
    HexPair(p2);
    HexPair(p3);
    HexPair(p4);
    HexPair(p5);
    var j4 := p4 + colon + p5;
    var j3 := p3 + colon + j4;
    var j2 := p2 + colon + j3;
    var j1 := p1 + colon + j2;
    HexOnlyPiece(p4, colon, p5);
    HexOnlyPiece(p3, colon, j4);
    HexOnlyPiece(p2, colon, j3);
    HexOnlyPiece(p1, colon, j2);
    HexOnlyPiece(p0, colon, j1);
    PairsOf12(h);
  }

  /** The hexadecimal digits of a MAC text are the lower-cased digits it was made of. */
  lemma HexOnlyOfMacText(h: string)
    requires Hex12(h)
    ensures HexOnly(MacText(h)) == Lower(h)
  {
    HexOnlyOfLower(Join([h[0..2], h[2..4], h[4..6], h[6..8], h[8..10], h[10..12]], ":"));
    HexOnlyOfJoinedPairs(h);
  }

  /**
   * The MAC text is 17 characters: ':' at positions 2, 5, 8, 11 and 14, and
   * elsewhere the twelve digits in order, lower-cased.
   */
  lemma MacTextShape(h: string)
    requires |h| == 12
    ensures |MacText(h)| == 17
    ensures forall i :: 0 <= i < 17 ==>
      MacText(h)[i] == if i % 3 == 2 then ':' else LowerChar(h[2 * (i / 3) + i % 3])
  {
    MacTextPieces(h);
  }

  /**
   * `mac_valid` is "" exactly for an absent or blank cell (one step
   * `mac_missing`, no issue), "true" exactly when twelve hexadecimal digits
   * remain after dropping every other character, and "false" otherwise, with
   * the trimmed cell as `mac` and one `invalid_mac` issue quoting the raw cell.
   */
  lemma MacValidIff(macRaw: Option<string>)
    ensures var r := NormalizeMac(macRaw);
      IsTernary(r.valid) &&
      (r.valid == "" <==> macRaw.None? || Strip(macRaw.value) == "") &&
      (r.valid == "" ==> r == MacResult("", "", [MacMissing], [])) &&
      (r.valid == "true" <==> macRaw.Some? && |HexOnly(Strip(macRaw.value))| == 12) &&
      (r.valid == "false" ==>
        r.mac == Strip(macRaw.value) && r.issues == [Issue("mac", "invalid_mac", macRaw.value, None)])
  {
    if macRaw.Some? && Strip(macRaw.value) == "" {
      assert HexOnly(Strip(macRaw.value)) == [];
    } else if macRaw.Some? {
      HexOnlyDigits(Strip(macRaw.value));
    }
  }

  /**
   * A valid MAC is 17 characters, ':' at positions 2, 5, 8, 11 and 14 and
   * lower-case hexadecimal digits elsewhere, and its digits are those of the
   * cell, in order, lower-cased.
   */
  lemma MacOutputShape(macRaw: Option<string>)
    requires NormalizeMac(macRaw).valid == "true"
    ensures var m := NormalizeMac(macRaw).mac;
      |m| == 17 &&
      (forall i :: 0 <= i < 17 ==> if i % 3 == 2 then m[i] == ':' else IsHexDigit(m[i]) && !IsUpper(m[i])) &&
      HexOnly(m) == Lower(HexOnly(Strip(macRaw.value)))
  {
    var h := HexOnly(Strip(macRaw.value));
    MacTextShape(h);
    HexOnlyOfMacText(h);
  }

  /** MAC texts of digit strings that differ only in case are equal. */
  lemma MacTextOfLower(h: string)
    requires |h| == 12
    ensures MacText(Lower(h)) == MacText(h)
  {
    MacTextShape(h);
    MacTextShape(Lower(h));
    assert forall i :: 0 <= i < 17 ==> MacText(Lower(h))[i] == MacText(h)[i];
  }

  /** Normalizing a valid MAC again returns it unchanged, and valid. */
  lemma MacIdempotent(macRaw: Option<string>)
    requires NormalizeMac(macRaw).valid == "true"
    ensures var m := NormalizeMac(macRaw).mac;
      NormalizeMac(Some(m)) == MacResult(m, "true", [MacTrim, MacHexExtract, MacNormalize], [])
  {
    var h := HexOnly(Strip(macRaw.value));
    var m := MacText(h);
    MacOutputShape(macRaw);
    assert Trimmed(m) by {
      assert !IsSpace(m[0]) && !IsSpace(m[16]);
    }
    StripOfTrimmed(m);
    assert Hex12(Lower(h));
    MacTextOfLower(h);
  }
}
