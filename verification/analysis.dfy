/**
 * The offline level analyser, analyze_levels_final.py: its own line
 * classifiers (a title/author test and a "mostly game symbols" grid test,
 * both different from the game's), the line-number prefix it strips from
 * each line, and the pass that counts levels and measures the largest grid.
 */
module Analysis {
  import opened Text
  import opened Teleporter
  import Levels

  /** Python's `str.strip()`. */
  function PyStrip(s: string): string {
    Trim(s, Py)
  }

  // ---------------------------------------------------------------------
  // is_title_or_author: re.match(r'^[A-Z]+.+$', line.strip())
  // ---------------------------------------------------------------------

  /** `[A-Z]+` can take the first `k` characters of `s`. */
  predicate UpperRun(s: string, k: int) {
    0 < k <= |s| && forall i | 0 <= i < k :: IsUpper(s[i])
  }

  /** `.+` can take `s[k..j]`: at least one character, none a line feed. */
  predicate DotRun(s: string, k: int, j: int) {
    0 <= k < j <= |s| && forall i | k <= i < j :: s[i] != '\n'
  }

  /** `$` (without MULTILINE) holds at position `j`: the end, or just
      before a final line feed. */
  predicate DollarAt(s: string, j: int) {
    j == |s| || (0 <= j == |s| - 1 && s[j] == '\n')
  }

  /** `re.match(r'^[A-Z]+.+$', s)` succeeds: some split of `s` into a
      capital run, a non-empty dot run and an end anchor exists. */
  predicate TitleMatch(s: string) {
    exists k, j | 1 <= k < j <= |s| :: UpperRun(s, k) && DotRun(s, k, j) && DollarAt(s, j)
  }

  /** `is_title_or_author`. */
  predicate IsTitleOrAuthor(line: string) {
    var s := PyStrip(line);
    |s| > 0 && TitleMatch(s)
  }

  /** `s` without one final line feed, the part `$` lets `.+` reach. */
  function Chomp(s: string): string {
    if |s| > 0 && s[|s| - 1] == '\n' then s[..|s| - 1] else s
  }

  /** Backtracking makes the capital run as short as one character: the
      pattern matches exactly when the text before any final line feed has
      a capital first, at least two characters, and no other line feed. */
  lemma TitleMatchIff(s: string)
    ensures TitleMatch(s) <==>
      var b := Chomp(s);
      |b| >= 2 && IsUpper(b[0]) && forall i | 1 <= i < |b| :: b[i] != '\n'
  {
    var b := Chomp(s);
    if |b| >= 2 && IsUpper(b[0]) && forall i | 1 <= i < |b| :: b[i] != '\n' {
      assert UpperRun(s, 1) && DotRun(s, 1, |b|) && DollarAt(s, |b|);
    }
    if TitleMatch(s) {
      var k, j :| 1 <= k < j <= |s| && UpperRun(s, k) && DotRun(s, k, j) && DollarAt(s, j);
      if j == |s| {
        assert s[|s| - 1] != '\n';
      }
      assert j == |b|;
      forall i | 1 <= i < |b|
        ensures b[i] != '\n'
      {
        if i < k { assert IsUpper(s[i]); }
      }
    }
  }

  /** A title or author line, as the analyser sees it: after stripping,
      a capital letter, at least one more character, and a single line. */
  lemma TitleOrAuthorIff(line: string)
    ensures IsTitleOrAuthor(line) <==>
      var s := PyStrip(line);
      |s| >= 2 && IsUpper(s[0]) && forall i | 1 <= i < |s| :: s[i] != '\n'
  {
    var s := PyStrip(line);
    TrimSpec(line, Py);
    TitleMatchIff(s);
    assert Chomp(s) == s by {
      if |s| > 0 { assert IsPySpace('\n'); }
    }
  }

  // ---------------------------------------------------------------------
  // is_grid_line
  // ---------------------------------------------------------------------

  /** `set('wseklgfbdhijcno~')`: the analyser's symbol set. It has no `t`,
      so a teleporter does not count as a game symbol here. */
  predicate IsGameSymbol(c: char) {
    || c == 'w' || c == 's' || c == 'e' || c == 'k' || c == 'l' || c == 'g' || c == 'f' || c == 'b'
    || c == 'd' || c == 'h' || c == 'i' || c == 'j' || c == 'c' || c == 'n' || c == 'o' || c == '~'
  }

  /** `line_chars.intersection(game_symbols)`: the game symbols among `chars`. */
  function GameChars(chars: set<char>): set<char> {
    set c | c in chars && IsGameSymbol(c)
  }

  /** `str.lower()` on ASCII capitals. The pointwise ensures lets callers
      use the result without unfolding the comprehension. */
  function Lower(s: string): (r: string)
    ensures |r| == |s|
    ensures forall i :: 0 <= i < |s| ==> r[i] == ToLower(s[i])
  {
    seq(|s|, i requires 0 <= i < |s| => ToLower(s[i]))
  }

  /** The lower-cased line has the same length and no capital left; every
      other character stays where it is, and each capital becomes the
      letter 32 code points above it. */
  lemma LowerSpec(s: string)
    ensures var r := Lower(s);
      && |r| == |s|
      && (forall i :: 0 <= i < |r| ==> !IsUpper(r[i]))
      && (forall i :: 0 <= i < |s| && !IsUpper(s[i]) ==> r[i] == s[i])
      && (forall i :: 0 <= i < |s| && IsUpper(s[i]) ==> r[i] as int == s[i] as int + 32)
  {
  }

  /** Lower-casing changes a line exactly when it has a capital, and
      lower-casing twice is lower-casing once. */
  lemma LowerFixes(s: string)
    ensures Lower(s) == s <==> forall i :: 0 <= i < |s| ==> !IsUpper(s[i])
    ensures Lower(Lower(s)) == Lower(s)
  {
    LowerSpec(s);
    LowerSpec(Lower(s));
    if Lower(s) == s {
      forall i | 0 <= i < |s| ensures !IsUpper(s[i]) {
        assert !IsUpper(Lower(s)[i]);
      }
    }
  }

  /** `set(s)`: the distinct characters of `s`. */
  function CharSet(s: string): set<char> {
    set c | c in s
  }

  /** `is_grid_line`: a non-blank line that is not a title or author and
      whose distinct (lower-cased) characters include a game symbol and
      are at least half game symbols. `len(common) < len(chars) * 0.5` is
      the exact comparison `2 * |common| < |chars|` on whole numbers. */
  predicate IsGridLine(line: string) {
    var s := PyStrip(line);
    if |s| == 0 then false
    else if IsTitleOrAuthor(line) then false
    else
      var chars := CharSet(Lower(s));
      var common := GameChars(chars);
      if |common| == 0 then false
      else !(2 * |common| < |chars|)
  }

  /** The grid test on any line: the stripped line is non-empty, is not a
      title or author, and at least half of its distinct lower-cased
      characters, one at least, are game symbols. */
  lemma GridLineSpec(line: string)
    ensures IsGridLine(line) <==>
      var s := PyStrip(line);
      var chars := CharSet(Lower(s));
      && |s| > 0
      && !(|s| >= 2 && IsUpper(s[0]) && forall i | 1 <= i < |s| :: s[i] != '\n')
      && |GameChars(chars)| > 0 && 2 * |GameChars(chars)| >= |chars|
  {
    TitleOrAuthorIff(line);
  }

  /** On a line with nothing to strip and no capital in front, the grid
      test is the symbol count alone. */
  lemma GridLineOfBare(line: string)
    requires |line| > 0 && Trimmed(line, Py) && !IsUpper(line[0])
    ensures IsGridLine(line) <==>
      var chars := CharSet(Lower(line));
      |GameChars(chars)| > 0 && 2 * |GameChars(chars)| >= |chars|
  {
    TrimTrimmed(line, Py);
    TitleOrAuthorIff(line);
  }

  lemma CharSetOfSymbols(line: string)
    requires |line| > 0 && forall i | 0 <= i < |line| :: IsGameSymbol(line[i])
    ensures var chars := CharSet(Lower(line)); GameChars(chars) == chars && |chars| > 0
  {
    var chars := CharSet(Lower(line));
    forall c | c in chars
      ensures IsGameSymbol(c)
    {
      var i :| 0 <= i < |line| && Lower(line)[i] == c;
    }
    assert Lower(line)[0] in chars;
  }

  /** With nothing to trim, the game's grid test is "no capital". */
  lemma GameGridLineOfBare(line: string)
    requires Trimmed(line, Js)
    ensures Levels.IsGridLine(Levels.JsTrim(line)) <==> forall i | 0 <= i < |line| :: !IsUpper(line[i])
  {
    TrimTrimmed(line, Js);
    Levels.GridLineIff(line);
  }

  /** A line made of game symbols only is a grid line for the analyser. */
  lemma SymbolRowIsGridLine(line: string)
    requires |line| > 0 && forall i | 0 <= i < |line| :: IsGameSymbol(line[i])
    ensures IsGridLine(line)
  {
    assert !IsUpper(line[0]) && !IsPySpace(line[0]) && !IsPySpace(line[|line| - 1]);
    GridLineOfBare(line);
    CharSetOfSymbols(line);
  }

  /** ... and for the game as well. */
  lemma SymbolRowIsGameGridLine(line: string)
    requires |line| > 0 && forall i | 0 <= i < |line| :: IsGameSymbol(line[i])
    ensures Levels.IsGridLine(Levels.JsTrim(line))
  {
    assert !IsJsSpace(line[0]) && !IsJsSpace(line[|line| - 1]);
    GameGridLineOfBare(line);
  }

  /** A line the analyser takes for a title or author is never a grid row
      for the game: its first stripped character is a capital, and that
      capital survives JavaScript's trim. */
  lemma TitleIsNotGameGridLine(line: string)
    requires IsTitleOrAuthor(line)
    ensures !Levels.IsGridLine(Levels.JsTrim(line))
  {
    var s := PyStrip(line);
    TitleOrAuthorIff(line);
    TrimSpec(line, Py);
    var i :| 0 <= i <= |line| - |s| && Framed(line, s, i, Py);
    assert line[i] == s[0];
    TrimKeeps(line, Js, i);
    var t := Levels.JsTrim(line);
    var k :| 0 <= k < |t| && t[k] == line[i];
    Levels.GridLineIff(t);
  }

  /** A row with a teleporter code is a grid row for the game... */
  lemma TeleporterRowIsGameGridLine()
    ensures Levels.IsGridLine(Levels.JsTrim("t11www"))
  {
    GameGridLineOfBare("t11www");
  }

  /** ... but not for the analyser: `t` and `1` are not game symbols, so
      only one of its three distinct characters is. */
  lemma TeleporterRowIsNotGridLine()
    ensures !IsGridLine("t11www")
  {
    var a := "t11www";
    GridLineOfBare(a);
    TeleporterRowChars();
    TeleporterRowCommon();
  }

  lemma TeleporterRowCommon()
    ensures var chars: set<char> := {'t', '1', 'w'}; |GameChars(chars)| == 1 && |chars| == 3
  {
    var chars: set<char> := {'t', '1', 'w'};
    assert GameChars(chars) == {'w'} by {
      assert !IsGameSymbol('t') && !IsGameSymbol('1') && IsGameSymbol('w');
      forall c | c in GameChars(chars) ensures c == 'w' {
      }
    }
  }

  lemma TeleporterRowChars()
    ensures CharSet(Lower("t11www")) == {'t', '1', 'w'}
  {
    var a := "t11www";
    assert Lower(a) == a by {
      forall i | 0 <= i < |a| ensures Lower(a)[i] == a[i] {
        assert !IsUpper(a[i]);
      }
    }
    forall c | c in CharSet(a)
      ensures c == 't' || c == '1' || c == 'w'
    {
      var i :| 0 <= i < |a| && a[i] == c;
    }
    assert a[0] == 't' && a[1] == '1' && a[3] == 'w';
  }

  /** A row with a capital after its first character is the reverse: a
      grid row for the analyser... */
  lemma CapitalRowIsGridLine()
    ensures IsGridLine("wW")
  {
    var b := "wW";
    GridLineOfBare(b);
    assert Lower(b) == "ww";
    assert CharSet("ww") == {'w'};
    assert GameChars({'w'}) == {'w'};
  }

  /** ... but not for the game. */
  lemma CapitalRowIsNotGameGridLine()
    ensures !Levels.IsGridLine(Levels.JsTrim("wW"))
  {
    GameGridLineOfBare("wW");
    assert IsUpper("wW"[1]);
  }

  // ---------------------------------------------------------------------
  // Line preparation: re.sub(r'^\s*\d+.', '', line).rstrip('\n\r')
  // ---------------------------------------------------------------------

  /** The length of the white-space run of `s` starting at `i`. */
  function SpaceRun(s: string, i: nat): (n: nat)
    requires i <= |s|
    ensures i + n <= |s|
    ensures forall k | i <= k < i + n :: IsPySpace(s[k])
    ensures i + n == |s| || !IsPySpace(s[i + n])
    decreases |s| - i
  {
    if i < |s| && IsPySpace(s[i]) then 1 + SpaceRun(s, i + 1) else 0
  }

  /** The length of the digit run of `s` starting at `i`. */
  function DigitRun(s: string, i: nat): (n: nat)
    requires i <= |s|
    ensures i + n <= |s|
    ensures forall k | i <= k < i + n :: IsDigit(s[k])
    ensures i + n == |s| || !IsDigit(s[i + n])
    decreases |s| - i
  {
    if i < |s| && IsDigit(s[i]) then 1 + DigitRun(s, i + 1) else 0
  }

  /** How much `re.sub(r'^\s*\d+.', '', line)` removes. Greedy `\s*` takes
      all leading white space and greedy `\d+` all the digits after it; the
      `.` then needs a character other than a line feed. When there is none
      the regex backtracks and gives one digit to the `.`, which needs at
      least two digits; giving back white space never helps, because the
      next character would then be white space rather than a digit. */
  function LineNumberLength(line: string): nat {
    var w := SpaceRun(line, 0);
    var d := DigitRun(line, w);
    if d >= 1 && w + d < |line| && line[w + d] != '\n' then w + d + 1
    else if d >= 2 then w + d
    else 0
  }

  /** The line with its line-number prefix removed. */
  function StripLineNumber(line: string): string {
    line[LineNumberLength(line)..]
  }

  /** `line[..b + 1]` matches `\s*\d+.` with `line[..a]` as the white space,
      `line[a..b]` as the digits and `line[b]` as the dot. */
  ghost predicate NumberMatch(line: string, a: int, b: int) {
    && 0 <= a < b < |line|
    && AllSpace(Py, line[..a])
    && AllDigit(line[a..b])
    && line[b] != '\n'
  }

  /** The prefix removed is the longest one the pattern matches, and
      nothing is removed exactly when no prefix matches. */
  lemma StripLineNumberSpec(line: string)
    ensures var n := LineNumberLength(line);
      && (n == 0 <==> forall a, b :: !NumberMatch(line, a, b))
      && (n > 0 ==> exists a, b :: NumberMatch(line, a, b) && b + 1 == n)
      && (forall a, b :: NumberMatch(line, a, b) ==> b + 1 <= n)
  {
    var w := SpaceRun(line, 0);
    var d := DigitRun(line, w);
    var n := LineNumberLength(line);
    forall a, b | NumberMatch(line, a, b)
      ensures b + 1 <= n
    {
      assert forall k | 0 <= k < a :: IsPySpace(line[k]) by {
        forall k | 0 <= k < a
          ensures IsPySpace(line[k])
        {
          assert line[..a][k] == line[k];
        }
      }
      assert forall k | a <= k < b :: IsDigit(line[k]) by {
        forall k | a <= k < b
          ensures IsDigit(line[k])
        {
          assert line[a..b][k - a] == line[k];
        }
      }
      assert IsDigit(line[a]);
      assert w < |line| ==> !IsPySpace(line[w]);
      assert a == w;
      assert w + d < |line| ==> !IsDigit(line[w + d]);
    }
    if d >= 1 && w + d < |line| && line[w + d] != '\n' {
      assert NumberMatch(line, w, w + d);
    } else if d >= 2 {
      assert NumberMatch(line, w, w + d - 1);
    }
  }

  /** `rstrip('\n\r')`. */
  function RStripNewlines(s: string): string
    decreases |s|
  {
    if |s| > 0 && (s[|s| - 1] == '\n' || s[|s| - 1] == '\r') then RStripNewlines(s[..|s| - 1]) else s
  }

  /** `rstrip('\n\r')` removes the trailing run of carriage returns and
      line feeds, and nothing else. */
  lemma {:induction false} RStripNewlinesSpec(s: string)
    ensures var r := RStripNewlines(s);
      && |r| <= |s| && r == s[..|r|]
      && (forall k | |r| <= k < |s| :: s[k] == '\n' || s[k] == '\r')
      && (|r| == 0 || (r[|r| - 1] != '\n' && r[|r| - 1] != '\r'))
    decreases |s|
  {
    if |s| > 0 && (s[|s| - 1] == '\n' || s[|s| - 1] == '\r') {
      RStripNewlinesSpec(s[..|s| - 1]);
    }
  }

  /** A line of the level file as the analyser reads it. */
  function Prepare(line: string): string {
    RStripNewlines(StripLineNumber(line))
  }

  /** A numbered row: two spaces, the number, one separator, the row. */
  lemma PrepareExample()
    ensures Prepare("  12 wwsew\n") == "wwsew"
  {
    var line := "  12 wwsew\n";
    assert SpaceRun(line, 0) == 2 by {
      assert IsPySpace(line[0]) && IsPySpace(line[1]) && !IsPySpace(line[2]);
      assert SpaceRun(line, 2) == 0;
      assert SpaceRun(line, 1) == 1;
    }
    assert DigitRun(line, 2) == 2 by {
      assert IsDigit(line[2]) && IsDigit(line[3]) && !IsDigit(line[4]);
      assert DigitRun(line, 4) == 0;
      assert DigitRun(line, 3) == 1;
    }
    assert StripLineNumber(line) == "wwsew\n";
    var t := "wwsew\n";
    assert RStripNewlines(t) == RStripNewlines(t[..5]);
    assert t[..5] == "wwsew";
  }

  // ---------------------------------------------------------------------
  // analyze_levels_file
  // ---------------------------------------------------------------------

  function Max(a: nat, b: nat): nat {
    if a >= b then a else b
  }

  /** Whether the line with index `n` (from 0), once prepared as `line`,
      is collected as a grid row: the three header lines never are, any
      other line is when it passes `is_grid_line`. */
  predicate Counted(n: int, line: string) {
    n >= 3 && IsGridLine(line)
  }

  /** Every line of the file as the analyser reads it. */
  function PrepareAll(lines: seq<string>): (ps: seq<string>)
    ensures |ps| == |lines|
    decreases |lines|
  {
    if |lines| == 0 then [] else PrepareAll(lines[..|lines| - 1]) + [Prepare(lines[|lines| - 1])]
  }

  /** The collected-row flag of every prepared line. */
  function Flags(ps: seq<string>): (f: seq<bool>)
    ensures |f| == |ps|
    decreases |ps|
  {
    if |ps| == 0 then [] else Flags(ps[..|ps| - 1]) + [Counted(|ps| - 1, ps[|ps| - 1])]
  }

  /** Line `i` of the prepared file is line `i` of the file, prepared. */
  lemma {:induction false} PrepareAllAt(lines: seq<string>)
    ensures forall i :: 0 <= i < |lines| ==> PrepareAll(lines)[i] == Prepare(lines[i])
    decreases |lines|
  {
    if |lines| > 0 {
      var n := |lines| - 1;
      PrepareAllAt(lines[..n]);
      assert forall i :: 0 <= i < n ==> lines[..n][i] == lines[i];
    }
  }

  /** Flag `i` is whether line `i`, as prepared, is collected. */
  lemma {:induction false} FlagsAt(ps: seq<string>)
    ensures forall i :: 0 <= i < |ps| ==> Flags(ps)[i] == Counted(i, ps[i])
    decreases |ps|
  {
    if |ps| > 0 {
      var n := |ps| - 1;
      FlagsAt(ps[..n]);
      assert forall i :: 0 <= i < n ==> ps[..n][i] == ps[i];
    }
  }

  lemma PrepareAllSnoc(lines: seq<string>, i: int)
    requires 0 <= i < |lines|
    ensures PrepareAll(lines[..i + 1]) == PrepareAll(lines[..i]) + [Prepare(lines[i])]
  {
    assert lines[..i + 1][..i] == lines[..i];
  }

  lemma FlagsSnoc(ps: seq<string>, line: string)
    ensures Flags(ps + [line]) == Flags(ps) + [Counted(|ps|, line)]
  {
    var q := ps + [line];
    assert q[..|q| - 1] == ps && q[|q| - 1] == line;
    assert Flags(q) == Flags(q[..|q| - 1]) + [Counted(|q| - 1, q[|q| - 1])];
  }

  /** The length of the run of `true` that ends `f`. */
  function TrailingRun(f: seq<bool>): nat
    decreases |f|
  {
    if |f| > 0 && f[|f| - 1] then TrailingRun(f[..|f| - 1]) + 1 else 0
  }

  /** `i` starts a run of `true`. */
  predicate RunStart(f: seq<bool>, i: int)
    requires 0 <= i < |f|
  {
    f[i] && (i == 0 || !f[i - 1])
  }

  /** The number of maximal runs of `true` in `f`, counted by their ends. */
  function CountRuns(f: seq<bool>): nat
    decreases |f|
  {
    if |f| == 0 then 0
    else CountRuns(f[..|f| - 1]) + (if RunStart(f, |f| - 1) then 1 else 0)
  }

  /** The length of the longest run of `true` in `f`. */
  function LongestRun(f: seq<bool>): nat
    decreases |f|
  {
    if |f| == 0 then 0 else Max(LongestRun(f[..|f| - 1]), TrailingRun(f))
  }

  /** `f[a..b]` is all `true`. */
  predicate AllTrue(f: seq<bool>, a: int, b: int)
    requires 0 <= a <= b <= |f|
  {
    forall k | a <= k < b :: f[k]
  }

  /** The trailing run is all `true` and cannot be extended to the left. */
  lemma {:induction false} TrailingRunSpec(f: seq<bool>)
    ensures var t := TrailingRun(f);
      t <= |f| && AllTrue(f, |f| - t, |f|) && (t == |f| || !f[|f| - t - 1])
    decreases |f|
  {
    if |f| > 0 && f[|f| - 1] {
      TrailingRunSpec(f[..|f| - 1]);
    }
  }

  /** `CountRuns` counts the positions where a run begins. */
  lemma {:induction false} CountRunsSpec(f: seq<bool>)
    ensures CountRuns(f) == |set i | 0 <= i < |f| && RunStart(f, i)|
    decreases |f|
  {
    if |f| > 0 {
      var g := f[..|f| - 1];
      CountRunsSpec(g);
      var sf := set i | 0 <= i < |f| && RunStart(f, i);
      var sg := set i | 0 <= i < |g| && RunStart(g, i);
      assert forall i | 0 <= i < |g| :: RunStart(f, i) == RunStart(g, i);
      if RunStart(f, |f| - 1) {
        assert sf == sg + {|f| - 1};
      } else {
        assert sf == sg;
      }
    }
  }

  /** `LongestRun` is the longest all-`true` stretch: every such stretch is
      at most that long, and one has exactly that length. */
  lemma {:induction false} LongestRunSpec(f: seq<bool>)
    ensures forall a, b | 0 <= a <= b <= |f| && AllTrue(f, a, b) :: b - a <= LongestRun(f)
    ensures exists a, b | 0 <= a <= b <= |f| :: AllTrue(f, a, b) && b - a == LongestRun(f)
    decreases |f|
  {
    if |f| > 0 {
      var g := f[..|f| - 1];
      LongestRunSpec(g);
      TrailingRunSpec(f);
      var t := TrailingRun(f);
      forall a, b | 0 <= a <= b <= |f| && AllTrue(f, a, b)
        ensures b - a <= LongestRun(f)
      {
        if b < |f| {
          assert AllTrue(g, a, b);
        }
      }
      var a0, b0 :| 0 <= a0 <= b0 <= |g| && AllTrue(g, a0, b0) && b0 - a0 == LongestRun(g);
      if LongestRun(g) >= t {
        assert AllTrue(f, a0, b0);
      } else {
        assert AllTrue(f, |f| - t, |f|);
      }
    } else {
      assert AllTrue(f, 0, 0);
    }
  }

  /** No level is found exactly when no row is collected, and then the
      tallest level has height 0 as well. */
  lemma NoRunsIff(f: seq<bool>)
    ensures CountRuns(f) == 0 <==> forall i | 0 <= i < |f| :: !f[i]
    ensures LongestRun(f) == 0 <==> forall i | 0 <= i < |f| :: !f[i]
  {
    CountRunsSpec(f);
    LongestRunSpec(f);
    if exists i | 0 <= i < |f| :: f[i] {
      var i :| 0 <= i < |f| && f[i];
      var first := FirstTrue(f, i);
      assert RunStart(f, first);
      assert first in set k | 0 <= k < |f| && RunStart(f, k);
      assert AllTrue(f, i, i + 1);
    } else {
      assert (set k | 0 <= k < |f| && RunStart(f, k)) == {};
      var a, b :| 0 <= a <= b <= |f| && AllTrue(f, a, b) && b - a == LongestRun(f);
    }
  }

  /** The first `true` at or before `i`, with nothing `true` before it. */
  function FirstTrue(f: seq<bool>, i: int): (k: int)
    requires 0 <= i < |f| && f[i]
    ensures 0 <= k <= i && f[k] && forall j | 0 <= j < k :: !f[j]
    decreases i
  {
    if exists j | 0 <= j < i :: f[j] then
      var j :| 0 <= j < i && f[j];
      FirstTrue(f, j)
    else i
  }

  /** How the three run measures change when one more flag is read. */
  lemma RunsExtend(f: seq<bool>, b: bool)
    ensures var q := f + [b];
      && TrailingRun(q) == (if b then TrailingRun(f) + 1 else 0)
      && CountRuns(q) == CountRuns(f) + (if b && TrailingRun(f) == 0 then 1 else 0)
      && LongestRun(q) == Max(LongestRun(f), TrailingRun(q))
      && TrailingRun(f) <= LongestRun(f)
  {
    var q := f + [b];
    assert q[..|f|] == f;
    TrailingRunSpec(f);
    if |f| > 0 {
      assert TrailingRun(f) == 0 <==> !f[|f| - 1];
    }
  }

  /** The loop's run counters after reading the flags `f`: `cur` rows in
      the open level, `count` levels closed, `maxHeight` the tallest closed
      one. */
  predicate RunsInv(f: seq<bool>, cur: nat, count: nat, maxHeight: nat) {
    && cur == TrailingRun(f)
    && count + (if cur > 0 then 1 else 0) == CountRuns(f)
    && maxHeight <= LongestRun(f) && Max(maxHeight, cur) == LongestRun(f)
  }

  /** A collected row extends the open level. */
  lemma RunsInvRow(f: seq<bool>, cur: nat, count: nat, maxHeight: nat)
    requires RunsInv(f, cur, count, maxHeight)
    ensures RunsInv(f + [true], cur + 1, count, maxHeight)
  {
    RunsExtend(f, true);
  }

  /** Any other line closes the open level, if there is one. */
  lemma RunsInvOther(f: seq<bool>, cur: nat, count: nat, maxHeight: nat)
    requires RunsInv(f, cur, count, maxHeight)
    ensures RunsInv(f + [false], 0, count + (if cur > 0 then 1 else 0), Max(maxHeight, cur))
  {
    RunsExtend(f, false);
  }

  /** The four numbers `analyze_levels_file` returns. */
  datatype Report = Report(levels: nat, maxWidthOriginal: nat, maxWidthCleaned: nat, maxHeight: nat)

  /** The width of a collected row, before or after cleaning codes. */
  function Width(line: string, cleaned: bool): nat {
    if cleaned then |Clean(line)| else |line|
  }

  /** `m` is the largest width among the prepared lines `ps` flagged in
      `f`, or 0 when there is none. */
  ghost predicate IsMaxWidth(ps: seq<string>, f: seq<bool>, m: nat, cleaned: bool)
    requires |f| == |ps|
  {
    && (forall j | 0 <= j < |f| && f[j] :: Width(ps[j], cleaned) <= m)
    && (m == 0 || exists j | 0 <= j < |f| && f[j] :: Width(ps[j], cleaned) == m)
  }

  /** Reading one more line keeps the running maximum. */
  lemma MaxWidthExtend(ps: seq<string>, f: seq<bool>, line: string, b: bool, m: nat, cleaned: bool)
    requires |f| == |ps| && IsMaxWidth(ps, f, m, cleaned)
    ensures IsMaxWidth(ps + [line], f + [b], if b then Max(m, Width(line, cleaned)) else m, cleaned)
  {
    var ps', q := ps + [line], f + [b];
    var m' := if b then Max(m, Width(line, cleaned)) else m;
    assert forall j | 0 <= j < |f| :: q[j] == f[j] && ps'[j] == ps[j];
    if m' != 0 {
      if b && m' == Width(line, cleaned) {
        assert q[|f|] && ps'[|f|] == line;
      } else {
        var j :| 0 <= j < |f| && f[j] && Width(ps[j], cleaned) == m;
        assert q[j] && ps'[j] == ps[j];
      }
    }
  }

  /** The running maximum the loop keeps: the largest width among the
      prepared lines `ps` flagged in `f`, read left to right. */
  function MaxWidth(ps: seq<string>, f: seq<bool>, cleaned: bool): nat
    requires |f| == |ps|
    decreases |ps|
  {
    if |ps| == 0 then 0
    else
      var m := MaxWidth(ps[..|ps| - 1], f[..|f| - 1], cleaned);
      if f[|f| - 1] then Max(m, Width(ps[|ps| - 1], cleaned)) else m
  }

  /** `MaxWidth` of one more line. */
  lemma MaxWidthSnoc(ps: seq<string>, f: seq<bool>, line: string, b: bool, cleaned: bool)
    requires |f| == |ps|
    ensures MaxWidth(ps + [line], f + [b], cleaned)
      == if b then Max(MaxWidth(ps, f, cleaned), Width(line, cleaned)) else MaxWidth(ps, f, cleaned)
  {
    assert (ps + [line])[..|ps|] == ps;
    assert (f + [b])[..|f|] == f;
  }

  /** The running maximum is the largest flagged width, and it is 0 only
      when no flagged line is wider than that. */
  lemma {:induction false} MaxWidthSpec(ps: seq<string>, f: seq<bool>, cleaned: bool)
    requires |f| == |ps|
    ensures IsMaxWidth(ps, f, MaxWidth(ps, f, cleaned), cleaned)
    decreases |ps|
  {
    if |ps| > 0 {
      var n := |ps| - 1;
      MaxWidthSpec(ps[..n], f[..n], cleaned);
      MaxWidthExtend(ps[..n], f[..n], ps[n], f[n], MaxWidth(ps[..n], f[..n], cleaned), cleaned);
      assert ps[..n] + [ps[n]] == ps;
      assert f[..n] + [f[n]] == f;
    }
  }

  /** Cleaning codes never widens the widest row. */
  lemma {:induction false} CleanedNarrower(ps: seq<string>, f: seq<bool>)
    requires |f| == |ps|
    ensures MaxWidth(ps, f, true) <= MaxWidth(ps, f, false)
    decreases |ps|
  {
    if |ps| > 0 {
      CleanedNarrower(ps[..|ps| - 1], f[..|f| - 1]);
    }
  }

  /** The invariant of the loop of `analyze_levels_file` after `i` lines:
      `ps` and `f` are the prepared lines and their flags so far, `cur` is
      the length of `current_level_lines`, and the counters are as the
      source keeps them. */
  ghost predicate LoopInv(lines: seq<string>, i: int, ps: seq<string>, f: seq<bool>,
                          cur: nat, count: nat, maxOriginal: nat, maxCleaned: nat, maxHeight: nat)
  {
    && 0 <= i <= |lines| && ps == PrepareAll(lines[..i]) && f == Flags(ps)
    && RunsInv(f, cur, count, maxHeight)
    && maxOriginal == MaxWidth(ps, f, false)
    && maxCleaned == MaxWidth(ps, f, true)
    && (i <= 3 ==> cur == 0)
  }

  /** The invariant holds before the first line. */
  lemma LoopInit(lines: seq<string>)
    ensures LoopInv(lines, 0, [], [], 0, 0, 0, 0, 0)
  {
    assert lines[..0] == [];
  }

  /** One iteration keeps the loop invariant: the primed values are the
      counters after reading line `i`. */
  lemma LoopStep(lines: seq<string>, i: int, ps: seq<string>, f: seq<bool>, line: string,
                 cur: nat, count: nat, maxOriginal: nat, maxCleaned: nat, maxHeight: nat,
                 cur': nat, count': nat, maxOriginal': nat, maxCleaned': nat, maxHeight': nat)
    requires LoopInv(lines, i, ps, f, cur, count, maxOriginal, maxCleaned, maxHeight)
    requires i < |lines| && line == Prepare(lines[i])
    requires Counted(i, line) ==>
      cur' == cur + 1 && count' == count && maxHeight' == maxHeight
      && maxOriginal' == Max(maxOriginal, |line|) && maxCleaned' == Max(maxCleaned, |Clean(line)|)
    requires i < 3 ==>
      cur' == cur && count' == count && maxHeight' == maxHeight
      && maxOriginal' == maxOriginal && maxCleaned' == maxCleaned
    requires i >= 3 && !Counted(i, line) ==>
      cur' == 0 && count' == count + (if cur > 0 then 1 else 0) && maxHeight' == Max(maxHeight, cur)
      && maxOriginal' == maxOriginal && maxCleaned' == maxCleaned
    ensures LoopInv(lines, i + 1, ps + [line], f + [Counted(i, line)],
                    cur', count', maxOriginal', maxCleaned', maxHeight')
  {
    var b := Counted(i, line);
    PrepareAllSnoc(lines, i);
    FlagsSnoc(ps, line);
    MaxWidthSnoc(ps, f, line, b, false);
    MaxWidthSnoc(ps, f, line, b, true);
    if b {
      RunsInvRow(f, cur, count, maxHeight);
    } else {
      RunsInvOther(f, cur, count, maxHeight);
    }
  }

  /** The four numbers once the loop is done and the last level closed. */
  lemma LoopDone(lines: seq<string>, ps: seq<string>, f: seq<bool>,
                 cur: nat, count: nat, maxOriginal: nat, maxCleaned: nat, maxHeight: nat)
    requires LoopInv(lines, |lines|, ps, f, cur, count, maxOriginal, maxCleaned, maxHeight)
    ensures ps == PrepareAll(lines) && f == Flags(ps)
    ensures count + (if cur > 0 then 1 else 0) == CountRuns(f)
    ensures (if cur > 0 then Max(maxHeight, cur) else maxHeight) == LongestRun(f)
  {
    assert lines[..|lines|] == lines;
  }

  /** `analyze_levels_file` over the lines `readlines` returned: a level
      is a maximal run of collected rows. It reports how many levels there
      are, the tallest level, and the widest collected row before and after
      teleporter codes are cleaned. */
  method AnalyzeLevels(lines: seq<string>) returns (r: Report)
    ensures var prepared := PrepareAll(lines);
      var flags := Flags(prepared);
      && r.levels == CountRuns(flags)
      && r.maxHeight == LongestRun(flags)
      && r.maxWidthOriginal == MaxWidth(prepared, flags, false)
      && r.maxWidthCleaned == MaxWidth(prepared, flags, true)
      && r.maxWidthCleaned <= r.maxWidthOriginal
  {
    ghost var ps: seq<string> := [];
    ghost var f: seq<bool> := [];
    var current: seq<string> := [];
    var count: nat, maxOriginal: nat, maxCleaned: nat, maxHeight: nat := 0, 0, 0, 0;
    var i := 0;
    LoopInit(lines);
    while i < |lines|
      invariant LoopInv(lines, i, ps, f, |current|, count, maxOriginal, maxCleaned, maxHeight)
      // implied by LoopInv; repeated so the header branch need not unfold it
      invariant i <= 3 ==> |current| == 0
    {
      ghost var cur0, count0, maxOriginal0, maxCleaned0, maxHeight0 :=
        |current|, count, maxOriginal, maxCleaned, maxHeight;
      var lineNum := i + 1;
      var line := Prepare(lines[i]);
      if lineNum <= 3 {
        // a header line: nothing is collected and no level is open yet
      } else if IsGridLine(line) {
        current := current + [line];
        maxOriginal := Max(maxOriginal, |line|);
        var cleaned := Clean(line);
        maxCleaned := Max(maxCleaned, |cleaned|);
      } else if |current| > 0 {
        maxHeight := Max(maxHeight, |current|);
        count := count + 1;
        current := [];
      }
      LoopStep(lines, i, ps, f, line, cur0, count0, maxOriginal0, maxCleaned0, maxHeight0,
               |current|, count, maxOriginal, maxCleaned, maxHeight);
      ps, f := ps + [line], f + [Counted(i, line)];
      i := i + 1;
    }
    LoopDone(lines, ps, f, |current|, count, maxOriginal, maxCleaned, maxHeight);
    if |current| > 0 {
      maxHeight := Max(maxHeight, |current|);
      count := count + 1;
    }
    CleanedNarrower(ps, f);
    r := Report(count, maxOriginal, maxCleaned, maxHeight);
  }
}
