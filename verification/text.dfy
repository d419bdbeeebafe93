/**
 * Character classes and the string helpers both level scripts rely on:
 * trimming (with JavaScript's and Python's different ideas of white space),
 * and splitting a text into lines at '\n'.
 */
module Text {

  /** `\d` as JavaScript reads it: an ASCII decimal digit. */
  predicate IsDigit(c: char) {
    '0' <= c <= '9'
  }

  /** The character class `[A-Z]`. */
  predicate IsUpper(c: char) {
    'A' <= c <= 'Z'
  }

  /** Lower-cases an ASCII capital and leaves every other character alone. */
  function ToLower(c: char): char {
    if IsUpper(c) then (c as int + 32) as char else c
  }

  /** Whose idea of white space a trim uses. */
  datatype Lang = Js | Py

  /** White space as `lang` sees it. */
  predicate IsSpace(lang: Lang, c: char) {
    match lang
    case Js => IsJsSpace(c)
    case Py => IsPySpace(c)
  }

  /** White space removed by JavaScript's `String.prototype.trim`: the
      WhiteSpace and LineTerminator code points of ECMAScript. */
  predicate IsJsSpace(c: char) {
    var n := c as int;
    || 9 <= n <= 13 || n == 32 || n == 0xA0 || n == 0x1680
    || 0x2000 <= n <= 0x200A || n == 0x2028 || n == 0x2029
    || n == 0x202F || n == 0x205F || n == 0x3000 || n == 0xFEFF
  }

  /** White space removed by Python's `str.strip()` and matched by `\s`:
      the characters for which `str.isspace()` holds. */
  predicate IsPySpace(c: char) {
    var n := c as int;
    || 9 <= n <= 13 || 0x1C <= n <= 0x1F || n == 32 || n == 0x85 || n == 0xA0
    || n == 0x1680 || 0x2000 <= n <= 0x200A || n == 0x2028 || n == 0x2029
    || n == 0x202F || n == 0x205F || n == 0x3000
  }

  /** Every character of `s` is white space. */
  predicate AllSpace(lang: Lang, s: string) {
    forall k :: 0 <= k < |s| ==> IsSpace(lang, s[k])
  }

  /** Every character of `s` is a digit. */
  predicate AllDigit(s: string) {
    forall k :: 0 <= k < |s| ==> IsDigit(s[k])
  }

  /** Neither end of `s` is white space as `lang` sees it. */
  predicate Trimmed(s: string, lang: Lang) {
    |s| == 0 || (!IsSpace(lang, s[0]) && !IsSpace(lang, s[|s| - 1]))
  }

  /** Drops the white space at the head of `s`. */
  function TrimStart(s: string, lang: Lang): string
    decreases |s|
  {
    if |s| > 0 && IsSpace(lang, s[0]) then TrimStart(s[1..], lang) else s
  }

  /** Drops the white space at the tail of `s`. */
  function TrimEnd(s: string, lang: Lang): string
    decreases |s|
  {
    if |s| > 0 && IsSpace(lang, s[|s| - 1]) then TrimEnd(s[..|s| - 1], lang) else s
  }

  /** `TrimStart` removes a prefix made of white space, and all of it. */
  lemma {:induction false} TrimStartSpec(s: string, lang: Lang)
    ensures var r := TrimStart(s, lang);
      && |r| <= |s| && r == s[|s| - |r|..]
      && AllSpace(lang, s[..|s| - |r|])
      && (|r| == 0 || !IsSpace(lang, r[0]))
    decreases |s|
  {
    if |s| > 0 && IsSpace(lang, s[0]) {
      var t := s[1..];
      TrimStartSpec(t, lang);
      var r := TrimStart(s, lang);
      assert r == TrimStart(t, lang);
      assert t[|t| - |r|..] == s[|s| - |r|..];
      assert s[..|s| - |r|] == [s[0]] + t[..|t| - |r|];
    }
  }

  /** `TrimEnd` removes a suffix made of white space, and all of it. */
  lemma {:induction false} TrimEndSpec(s: string, lang: Lang)
    ensures var r := TrimEnd(s, lang);
      && |r| <= |s| && r == s[..|r|]
      && AllSpace(lang, s[|r|..])
      && (|r| == 0 || !IsSpace(lang, r[|r| - 1]))
    decreases |s|
  {
    if |s| > 0 && IsSpace(lang, s[|s| - 1]) {
      var t := s[..|s| - 1];
      TrimEndSpec(t, lang);
      var r := TrimEnd(s, lang);
      assert r == TrimEnd(t, lang);
      assert t[..|r|] == s[..|r|];
      assert s[|r|..] == t[|r|..] + [s[|s| - 1]];
    }
  }

  /** `s` is `r` with white space (only) added on either side. */
  ghost predicate Padded(s: string, r: string, lang: Lang) {
    exists i :: 0 <= i <= |s| - |r| && Framed(s, r, i, lang)
  }

  /** `r` sits at offset `i` of `s` and everything around it is white space. */
  ghost predicate Framed(s: string, r: string, i: int, lang: Lang)
    requires 0 <= i <= |s| - |r|
  {
    && s[i..i + |r|] == r
    && AllSpace(lang, s[..i])
    && AllSpace(lang, s[i + |r|..])
  }

  /** Removes white space from both ends. Its properties are stated by
      `TrimSpec` rather than as postconditions, so that proofs which only
      pass trimmed lines around do not have to reason about them. */
  function Trim(s: string, lang: Lang): string {
    TrimEnd(TrimStart(s, lang), lang)
  }

  /** The trim of `s` has no white space at either end, and `s` is that
      trim with only white space added around it. */
  lemma TrimSpec(s: string, lang: Lang)
    ensures Trimmed(Trim(s, lang), lang)
    ensures Padded(s, Trim(s, lang), lang)
  {
    var t := TrimStart(s, lang);
    var r := TrimEnd(t, lang);
    TrimStartSpec(s, lang);
    TrimEndSpec(t, lang);
    assert |r| == 0 || r[0] == t[0];
    var i := |s| - |t|;
    assert s[i..i + |r|] == r;
    assert s[..i] == s[..|s| - |t|];
    assert s[i + |r|..] == t[|r|..];
    assert Framed(s, r, i, lang);
  }

  /** A string with no white space at either end is its own trim. */
  lemma TrimTrimmed(s: string, lang: Lang)
    requires Trimmed(s, lang)
    ensures Trim(s, lang) == s
  {
  }

  /** Trimming is idempotent. */
  lemma TrimIdempotent(s: string, lang: Lang)
    ensures Trim(Trim(s, lang), lang) == Trim(s, lang)
  {
    TrimSpec(s, lang);
    TrimTrimmed(Trim(s, lang), lang);
  }

  /** A character that is not white space survives trimming. */
  lemma TrimKeeps(s: string, lang: Lang, k: int)
    requires 0 <= k < |s| && !IsSpace(lang, s[k])
    ensures s[k] in Trim(s, lang)
  {
    var r := Trim(s, lang);
    TrimSpec(s, lang);
    var i :| 0 <= i <= |s| - |r| && Framed(s, r, i, lang);
    if i <= k < i + |r| {
      assert r[k - i] == s[k];
    }
  }

  /** `s` begins with `prefix`. */
  predicate StartsWith(s: string, prefix: string) {
    |prefix| <= |s| && s[..|prefix|] == prefix
  }

  /** JavaScript's `text.split('\n')`: the pieces between newlines, at least one. */
  function SplitLines(s: string): (r: seq<string>)
    ensures |r| >= 1
    ensures forall k :: 0 <= k < |r| ==> '\n' !in r[k]
    decreases |s|
  {
    if |s| == 0 then [""]
    else if s[0] == '\n' then [""] + SplitLines(s[1..])
    else
      var rest := SplitLines(s[1..]);
      [[s[0]] + rest[0]] + rest[1..]
  }

  /** Joins lines with '\n' between them, the inverse of `SplitLines`. */
  function JoinLines(lines: seq<string>): string
    requires |lines| >= 1
    decreases |lines|
  {
    if |lines| == 1 then lines[0] else lines[0] + "\n" + JoinLines(lines[1..])
  }

  /** Splitting a text and joining the pieces gives the text back. */
  lemma {:induction false} JoinSplit(s: string)
    ensures JoinLines(SplitLines(s)) == s
    decreases |s|
  {
    if |s| == 0 {
    } else if s[0] == '\n' {
      JoinSplit(s[1..]);
      assert s == "\n" + s[1..];
    } else {
      JoinSplit(s[1..]);
      var rest := SplitLines(s[1..]);
      if |rest| == 1 {
        assert s == [s[0]] + s[1..];
      } else {
        assert JoinLines(rest) == rest[0] + "\n" + JoinLines(rest[1..]);
        assert s == [s[0]] + s[1..];
      }
    }
  }

  /** Joining newline-free lines and splitting the result gives the lines back. */
  lemma {:induction false} SplitJoin(lines: seq<string>)
    requires |lines| >= 1
    requires forall k :: 0 <= k < |lines| ==> '\n' !in lines[k]
    ensures SplitLines(JoinLines(lines)) == lines
    decreases |lines|, |lines[0]|
  {
    var head := lines[0];
    if |head| == 0 {
      if |lines| == 1 {
      } else {
        SplitJoin(lines[1..]);
        assert JoinLines(lines) == "\n" + JoinLines(lines[1..]);
        assert lines == [""] + lines[1..];
      }
    } else {
      var shorter := [head[1..]] + lines[1..];
      assert forall k :: 0 <= k < |shorter| ==> '\n' !in shorter[k] by {
        forall k | 0 <= k < |shorter|
          ensures '\n' !in shorter[k]
        {
          if k > 0 { assert shorter[k] == lines[k]; }
        }
      }
      SplitJoin(shorter);
      var joined := JoinLines(lines);
      if |lines| == 1 {
        assert joined == [head[0]] + JoinLines(shorter);
      } else {
        assert JoinLines(shorter) == head[1..] + "\n" + JoinLines(lines[1..]);
        assert joined == [head[0]] + JoinLines(shorter);
      }
      assert joined[0] == head[0] && joined[1..] == JoinLines(shorter);
      assert head[0] != '\n' by { assert head[0] in lines[0]; }
      assert SplitLines(joined) == [[head[0]] + shorter[0]] + shorter[1..];
      assert [head[0]] + head[1..] == head;
      assert [head] + lines[1..] == lines;
    }
  }
}
