/**
 * Teleporter codes. In a level row a teleporter may carry a numeric code,
 * `t11`, `t23`, ...; both the game and the analysis script rewrite every
 * match of the regular expression `t\d+` to a bare `t` before measuring or
 * drawing the row, so the whole code occupies one column.
 */
module Teleporter {
  import opened Text

  /** A code starts at `i`: a `t` immediately followed by a digit. */
  predicate CodeAt(s: string, i: int) {
    0 <= i < |s| - 1 && s[i] == 't' && IsDigit(s[i + 1])
  }

  /** No `t` in `s` is immediately followed by a digit. */
  predicate NoCode(s: string) {
    forall i | 0 <= i < |s| :: !CodeAt(s, i)
  }

  /** Drops the digit run at the head of `s`: what `\d+` consumes after a `t`. */
  function DropDigits(s: string): (r: string)
    ensures |r| <= |s| && r == s[|s| - |r|..]
    ensures AllDigit(s[..|s| - |r|])
    ensures |r| == 0 || !IsDigit(r[0])
    decreases |s|
  {
    if |s| > 0 && IsDigit(s[0]) then DropDigits(s[1..]) else s
  }

  /** `line.replace(/t\d+/g, 't')`: every `t` followed by one or more digits
      becomes a single `t`; the scan resumes after the digits. */
  function Clean(s: string): (r: string)
    ensures |r| <= |s|
    ensures |s| > 0 ==> |r| > 0 && r[0] == s[0]
    ensures NoCode(r)
    decreases |s|
  {
    if |s| == 0 then ""
    else if CodeAt(s, 0) then
      var rest := Clean(DropDigits(s[1..]));
      assert forall i :: CodeAt("t" + rest, i) ==> CodeAt(rest, i - 1);
      "t" + rest
    else
      var rest := Clean(s[1..]);
      assert forall i :: CodeAt([s[0]] + rest, i) ==> CodeAt(rest, i - 1);
      [s[0]] + rest
  }

  /** The characters of `s` that are not digits, in order. */
  function NonDigits(s: string): string
    decreases |s|
  {
    if |s| == 0 then "" else (if IsDigit(s[0]) then "" else [s[0]]) + NonDigits(s[1..])
  }

  /** A row with no teleporter code is left exactly as it is, and only such a
      row is: cleaning changes the row iff a code is present. */
  lemma {:induction false} CleanFixesExactlyCodeFree(s: string)
    ensures Clean(s) == s <==> NoCode(s)
    decreases |s|
  {
    if NoCode(s) && |s| > 0 {
      assert !CodeAt(s, 0);
      assert forall i :: CodeAt(s[1..], i) ==> CodeAt(s, i + 1);
      CleanFixesExactlyCodeFree(s[1..]);
      assert s == [s[0]] + s[1..];
    }
  }

  /** Cleaning is idempotent. */
  lemma CleanIdempotent(s: string)
    ensures Clean(Clean(s)) == Clean(s)
  {
    CleanFixesExactlyCodeFree(Clean(s));
  }

  /** A row containing a code gets strictly shorter. */
  lemma {:induction false} CleanShrinks(s: string)
    ensures |Clean(s)| < |s| <==> !NoCode(s)
    decreases |s|
  {
    CleanFixesExactlyCodeFree(s);
    if !NoCode(s) {
      if !CodeAt(s, 0) {
        var i :| 0 <= i < |s| && CodeAt(s, i);
        assert i >= 1;
        assert s[1..][i - 1] == s[i] && s[1..][i] == s[i + 1];
        assert CodeAt(s[1..], i - 1);
        CleanShrinks(s[1..]);
      }
    }
  }

  /** Skipping a leading digit run removes only digits. */
  lemma {:induction false} DropDigitsKeepsNonDigits(s: string)
    ensures NonDigits(DropDigits(s)) == NonDigits(s)
    decreases |s|
  {
    if |s| > 0 && IsDigit(s[0]) {
      DropDigitsKeepsNonDigits(s[1..]);
    }
  }

  /** Cleaning deletes digits and nothing else: every other character,
      the `t`s included, survives in order. */
  lemma {:induction false} CleanKeepsNonDigits(s: string)
    ensures NonDigits(Clean(s)) == NonDigits(s)
    decreases |s|
  {
    if |s| == 0 {
    } else if CodeAt(s, 0) {
      var d := DropDigits(s[1..]);
      CleanKeepsNonDigits(d);
      DropDigitsKeepsNonDigits(s[1..]);
      assert NonDigits(s[1..]) == NonDigits(s[2..]);
      assert ("t" + Clean(d))[1..] == Clean(d);
    } else {
      CleanKeepsNonDigits(s[1..]);
      assert ([s[0]] + Clean(s[1..]))[1..] == Clean(s[1..]);
    }
  }

  /** The position `i` of `s` is a digit of a code: a digit right after a
      `t`, or right after another such digit. These are exactly the
      characters the matches of `t\d+` cover apart from their `t`. */
  predicate Removed(s: string, i: int)
    requires 0 <= i < |s|
    decreases i
  {
    i > 0 && IsDigit(s[i]) && (s[i - 1] == 't' || Removed(s, i - 1))
  }

  /** The characters of `s` from position `k` on that are not code digits,
      in order. */
  function Kept(s: string, k: int): string
    requires 0 <= k <= |s|
    decreases |s| - k
  {
    if k == |s| then "" else (if Removed(s, k) then "" else [s[k]]) + Kept(s, k + 1)
  }

  /** A run of code digits contributes nothing. */
  lemma {:induction false} KeptSkip(s: string, k: int, n: int)
    requires 0 <= k <= n <= |s|
    requires forall i | k <= i < n :: Removed(s, i)
    ensures Kept(s, k) == Kept(s, n)
    decreases n - k
  {
    if k < n {
      KeptSkip(s, k + 1, n);
    }
  }

  /** Past a position that cannot continue a code, the suffix decides on its own. */
  lemma {:induction false} RemovedAfter(s: string, n: int, m: int)
    requires 0 < n <= |s| && 0 <= m < |s| - n
    requires !IsDigit(s[n]) || (s[n - 1] != 't' && !Removed(s, n - 1))
    ensures Removed(s, n + m) <==> Removed(s[n..], m)
    decreases m
  {
    if m > 0 {
      RemovedAfter(s, n, m - 1);
      assert s[n..][m] == s[n + m] && s[n..][m - 1] == s[n + m - 1];
    }
  }

  /** ... and so keeps the same characters. */
  lemma {:induction false} KeptShift(s: string, n: int, k: int)
    requires 0 < n <= |s| && 0 <= k <= |s| - n
    requires n == |s| || !IsDigit(s[n]) || (s[n - 1] != 't' && !Removed(s, n - 1))
    ensures Kept(s, n + k) == Kept(s[n..], k)
    decreases |s| - n - k
  {
    var t := s[n..];
    if k < |t| {
      RemovedAfter(s, n, k);
      KeptShift(s, n, k + 1);
      assert t[k] == s[n + k];
      assert Kept(s, n + k) == (if Removed(s, n + k) then "" else [s[n + k]]) + Kept(s, n + k + 1);
      assert Kept(t, k) == (if Removed(t, k) then "" else [t[k]]) + Kept(t, k + 1);
    }
  }

  /** The digits after a `t` are code digits. */
  lemma {:induction false} CodeDigitsRemoved(s: string, n: int, i: int)
    requires 0 < i < n <= |s| && s[0] == 't' && AllDigit(s[1..n])
    ensures Removed(s, i)
    decreases i
  {
    assert IsDigit(s[1..n][i - 1]);
    if i > 1 {
      CodeDigitsRemoved(s, n, i - 1);
    }
  }

  /** At a code, the `t` is kept and its digits are skipped. */
  lemma KeptAtCode(s: string)
    requires CodeAt(s, 0)
    ensures Kept(s, 0) == "t" + Kept(DropDigits(s[1..]), 0)
  {
    var r := DropDigits(s[1..]);
    var n := |s| - |r|;
    assert s[n..] == r && AllDigit(s[1..n]) by {
      assert s[1..][|s| - 1 - |r|..] == s[n..];
      assert s[1..][..|s| - 1 - |r|] == s[1..n];
    }
    forall i | 1 <= i < n ensures Removed(s, i) {
      CodeDigitsRemoved(s, n, i);
    }
    KeptSkip(s, 1, n);
    if n < |s| {
      assert !IsDigit(s[n]) by { assert s[n] == r[0]; }
    }
    KeptShift(s, n, 0);
  }

  /** Elsewhere the first character is kept and the rest decides on its own. */
  lemma KeptAtOther(s: string)
    requires |s| > 0 && !CodeAt(s, 0)
    ensures Kept(s, 0) == [s[0]] + Kept(s[1..], 0)
  {
    assert !Removed(s, 0);
    KeptShift(s, 1, 0);
  }

  /** Cleaning deletes exactly the code digits: a character survives iff it
      is not a digit of a `t`-code, so digits elsewhere are kept. */
  lemma {:induction false} CleanIsKept(s: string)
    ensures Clean(s) == Kept(s, 0)
    decreases |s|
  {
    if |s| > 0 {
      if CodeAt(s, 0) {
        CleanIsKept(DropDigits(s[1..]));
        KeptAtCode(s);
      } else {
        CleanIsKept(s[1..]);
        KeptAtOther(s);
      }
    }
  }

  /** `t12e` shows the column rule: the code collapses and `e` lands in column 1. */
  lemma CleanExample()
    ensures Clean("st12e") == "ste"
  {
    var s := "st12e";
    assert !CodeAt(s, 0);
    assert s[1..] == "t12e";
    CodeExample();
    assert Clean(s) == [s[0]] + Clean(s[1..]);
  }

  /** A digit run followed by a non-digit is dropped exactly. */
  lemma {:induction false} DropDigitsOf(d: string, rest: string)
    requires AllDigit(d) && (|rest| == 0 || !IsDigit(rest[0]))
    ensures DropDigits(d + rest) == rest
    decreases |d|
  {
    if |d| == 0 {
      assert d + rest == rest;
    } else {
      assert (d + rest)[1..] == d[1..] + rest;
      DropDigitsOf(d[1..], rest);
    }
  }

  /** A code alone: `t12e` becomes `te`. */
  lemma CodeExample()
    ensures Clean("t12e") == "te"
  {
    var s := "t12e";
    assert CodeAt(s, 0) && s[1..] == "12" + "e";
    assert DropDigits(s[1..]) == "e" by {
      DropDigitsOf("12", "e");
    }
    assert Clean("e") == "e" by {
      assert NoCode("e");
      CleanFixesExactlyCodeFree("e");
    }
    assert Clean(s) == "t" + Clean(DropDigits(s[1..]));
  }
}
