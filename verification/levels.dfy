/**
 * The game's level-text parser (`parseLevels` in game.js). A corpus is a
 * header, then blocks of a title line, an author line and grid rows. The
 * parser tells a title from a grid row by one test only: a grid row has no
 * capital letter.
 */
module Levels {
  import opened Common
  import opened Text

  /** A parsed level: its title, its author and its raw (trimmed) grid rows. */
  datatype Level = Level(title: string, author: string, grid: seq<string>)

  /** The title and author of the level being collected. */
  datatype Header = Header(title: string, author: string)

  /** JavaScript's `trim()`. */
  function JsTrim(s: string): string {
    Trim(s, Js)
  }

  /** `/[A-Z]/.test(line)`: a left-to-right search for a capital letter. */
  predicate HasUpper(s: string)
    decreases |s|
  {
    |s| > 0 && (IsUpper(s[0]) || HasUpper(s[1..]))
  }

  /** `isGridLine`: a grid row is a line without capital letters. */
  predicate IsGridLine(line: string) {
    !HasUpper(line)
  }

  /** `/^\d+$/.test(line)`: a non-empty run of digits, such as a version line. */
  predicate AllDigits(s: string) {
    |s| > 0 && AllDigit(s)
  }

  /** The trimmed lines the parser ignores: blank lines, the
      "Mushroom Man ..." header and bare numbers. */
  predicate Skipped(line: string) {
    line == "" || StartsWith(line, "Mushroom Man") || AllDigits(line)
  }

  /** The parser's loop state: the header `cur` of the level being
      collected, its grid rows `rows` so far, and the levels already emitted. */
  datatype Parser = Parser(cur: Option<Header>, rows: seq<string>, levels: seq<Level>)

  /** The parser before the first line. */
  const Initial: Parser := Parser(None, [], [])

  /** Saves the level being collected, if it has a header and some rows. */
  function Flush(p: Parser): seq<Level> {
    if |p.rows| > 0 && p.cur.Some? then p.levels + [Level(p.cur.value.title, p.cur.value.author, p.rows)] else p.levels
  }

  /** How the loop reads a trimmed line. */
  datatype Kind = Ignored | Title | Row

  /** The loop's three-way test on a trimmed line: skipped, a title (no
      grid line), or a grid row. */
  function Classify(line: string): Kind {
    if Skipped(line) then Ignored else if !IsGridLine(line) then Title else Row
  }

  /** One pass of the parser's loop over the remaining raw lines `rest`:
      returns the lines still to read and the new state. A title flushes the
      current level and opens a new one, taking the next raw line, trimmed
      but not classified, as its author. */
  function Step(rest: seq<string>, p: Parser): (r: (seq<string>, Parser))
    requires |rest| > 0
    ensures r.0 == rest[1..] || (|rest| > 1 && r.0 == rest[2..])
    ensures |r.0| == |rest| - 2 <==> Classify(JsTrim(rest[0])) == Title && |rest| > 1
    ensures Classify(JsTrim(rest[0])) == Ignored ==> r.1 == p
    ensures Classify(JsTrim(rest[0])) == Row ==> r.1.cur == p.cur && r.1.levels == p.levels
    ensures Classify(JsTrim(rest[0])) == Row && p.cur.Some? ==> r.1.rows == p.rows + [JsTrim(rest[0])]
    ensures Classify(JsTrim(rest[0])) == Row && p.cur.None? ==> r.1 == p
    ensures Classify(JsTrim(rest[0])) == Title ==>
      && r.1.cur == Some(Header(JsTrim(rest[0]), if |rest| > 1 then JsTrim(rest[1]) else ""))
      && r.1.levels == Flush(p)
      && (r.1.levels == p.levels ==> r.1.rows == p.rows)
      && (r.1.levels != p.levels ==> r.1.rows == [])
    ensures Classify(JsTrim(rest[0])) == Title && LoopInv(p) ==> r.1.rows == []
  {
    var line := JsTrim(rest[0]);
    match Classify(line)
    case Ignored => (rest[1..], p)
    case Title =>
      var author := if |rest| > 1 then JsTrim(rest[1]) else "";
      var flush := |p.rows| > 0 && p.cur.Some?;
      (if |rest| > 1 then rest[2..] else [],
       Parser(Some(Header(line, author)), if flush then [] else p.rows, Flush(p)))
    case Row => if p.cur.Some? then (rest[1..], p.(rows := p.rows + [line])) else (rest[1..], p)
  }

  /** The parser's loop from state `p` over the remaining raw lines `rest`,
      then the final flush after the loop. */
  function ParseFrom(rest: seq<string>, p: Parser): seq<Level>
    decreases |rest|
  {
    if |rest| == 0 then Flush(p)
    else
      var (rest', p') := Step(rest, p);
      ParseFrom(rest', p')
  }

  /** `parseLevels` over the lines of a corpus. */
  function Parse(lines: seq<string>): seq<Level> {
    ParseFrom(lines, Initial)
  }

  /** `parseLevels(text)`: split at '\n', then parse. */
  function ParseText(text: string): seq<Level> {
    Parse(SplitLines(text))
  }

  // ---------------------------------------------------------------------
  // What the parser emits

  /** A grid row as the parser stores it. */
  predicate IsStoredRow(r: string) {
    JsTrim(r) == r && !Skipped(r) && IsGridLine(r)
  }

  /** A header as the parser stores it: a trimmed, non-skipped title with a
      capital letter, and a trimmed author. */
  predicate GoodHeader(h: Header) {
    JsTrim(h.title) == h.title && !Skipped(h.title) && !IsGridLine(h.title) && JsTrim(h.author) == h.author
  }

  /** A level the parser can emit: a good header and at least one stored row. */
  predicate WellFormed(l: Level) {
    && GoodHeader(Header(l.title, l.author))
    && |l.grid| > 0
    && forall k :: 0 <= k < |l.grid| ==> IsStoredRow(l.grid[k])
  }

  /** The classifier reads exactly the pattern `[A-Z]`. */
  lemma {:induction false} GridLineIff(line: string)
    ensures IsGridLine(line) <==> forall k :: 0 <= k < |line| ==> !IsUpper(line[k])
    decreases |line|
  {
    if |line| > 0 {
      GridLineIff(line[1..]);
      assert forall k :: 1 <= k < |line| ==> line[1..][k - 1] == line[k];
    }
  }

  /** The invariant of the parser's loop: grid rows are only collected under a header. */
  predicate LoopInv(p: Parser) {
    p.cur.None? ==> p.rows == []
  }

  /** Every row is as the parser stores it. */
  predicate AllStored(rows: seq<string>) {
    forall k :: 0 <= k < |rows| ==> IsStoredRow(rows[k])
  }

  /** Every level is one the parser can emit. */
  predicate AllWellFormed(ls: seq<Level>) {
    forall k :: 0 <= k < |ls| ==> WellFormed(ls[k])
  }

  /** Everything the parser holds is as it would store it. */
  predicate GoodState(p: Parser) {
    && LoopInv(p)
    && (p.cur.Some? ==> GoodHeader(p.cur.value))
    && AllStored(p.rows)
    && AllWellFormed(p.levels)
  }

  lemma FlushGood(p: Parser)
    requires GoodState(p)
    ensures AllWellFormed(Flush(p))
  {
    var f := Flush(p);
    if |p.rows| > 0 && p.cur.Some? {
      forall k | 0 <= k < |f|
        ensures WellFormed(f[k])
      {
        if k < |p.levels| { assert f[k] == p.levels[k]; }
      }
    }
  }

  lemma StepGood(rest: seq<string>, p: Parser)
    requires |rest| > 0 && GoodState(p)
    ensures GoodState(Step(rest, p).1)
  {
    var line := JsTrim(rest[0]);
    TrimIdempotent(rest[0], Js);
    match Classify(line)
    case Ignored =>
    case Title =>
      if |rest| > 1 { TrimIdempotent(rest[1], Js); }
      FlushGood(p);
    case Row =>
      if p.cur.Some? {
        var rows := p.rows + [line];
        forall k | 0 <= k < |rows|
          ensures IsStoredRow(rows[k])
        {
          if k < |p.rows| { assert rows[k] == p.rows[k]; }
        }
      }
  }

  lemma {:induction false} ParseFromWellFormed(rest: seq<string>, p: Parser)
    requires GoodState(p)
    ensures forall k :: 0 <= k < |ParseFrom(rest, p)| ==> WellFormed(ParseFrom(rest, p)[k])
    decreases |rest|
  {
    if |rest| > 0 {
      StepGood(rest, p);
      var (rest', p') := Step(rest, p);
      ParseFromWellFormed(rest', p');
    }
  }

  /** Every level the parser emits is well formed: its title is a trimmed
      line with a capital letter, its author is trimmed, and its grid is a
      non-empty list of trimmed, non-blank rows without capitals. */
  lemma ParseWellFormed(lines: seq<string>)
    ensures forall k :: 0 <= k < |Parse(lines)| ==> WellFormed(Parse(lines)[k])
  {
    ParseFromWellFormed(lines, Initial);
  }

  // ---------------------------------------------------------------------
  // Round trip: writing levels out as a corpus and parsing them back

  /** The corpus lines of a list of levels: title, author, then grid rows, per level. */
  function Serialize(ls: seq<Level>): seq<string>
    decreases |ls|
  {
    if |ls| == 0 then [] else [ls[0].title, ls[0].author] + ls[0].grid + Serialize(ls[1..])
  }

  /** One stored row under an open header is appended to the rows. */
  lemma RowStep(grid: seq<string>, i: nat, tail: seq<string>, p: Parser)
    requires p.cur.Some? && i < |grid| && IsStoredRow(grid[i])
    ensures ParseFrom(grid[i..] + tail, p) == ParseFrom(grid[i + 1..] + tail, p.(rows := p.rows + [grid[i]]))
  {
    var all := grid[i..] + tail;
    assert all[0] == grid[i] && all[1..] == grid[i + 1..] + tail;
    assert Step(all, p) == (grid[i + 1..] + tail, p.(rows := p.rows + [grid[i]]));
  }

  /** Grid rows under a header are collected one by one. */
  lemma RowsCollected(grid: seq<string>, tail: seq<string>, p: Parser)
    requires p.cur.Some?
    requires forall k :: 0 <= k < |grid| ==> IsStoredRow(grid[k])
    ensures ParseFrom(grid + tail, p) == ParseFrom(tail, p.(rows := p.rows + grid))
  {
    RowsCollectedFrom(grid, 0, tail, p);
    assert grid[0..] == grid;
  }

  /** `RowsCollected` from row `i` on, with the rows before `i` already collected. */
  lemma {:induction false} RowsCollectedFrom(grid: seq<string>, i: nat, tail: seq<string>, p: Parser)
    requires p.cur.Some? && i <= |grid|
    requires forall k :: 0 <= k < |grid| ==> IsStoredRow(grid[k])
    ensures ParseFrom(grid[i..] + tail, p) == ParseFrom(tail, p.(rows := p.rows + grid[i..]))
    decreases |grid| - i
  {
    if i < |grid| {
      RowStep(grid, i, tail, p);
      RowsCollectedFrom(grid, i + 1, tail, p.(rows := p.rows + [grid[i]]));
      assert p.rows + [grid[i]] + grid[i + 1..] == p.rows + grid[i..];
    } else {
      assert grid[i..] + tail == tail;
      assert p.rows + grid[i..] == p.rows;
    }
  }

  /** A well-formed level's title line opens it and takes the author line with it. */
  lemma HeaderStep(l: Level, rest: seq<string>, p: Parser)
    requires WellFormed(l) && LoopInv(p)
    ensures Step([l.title, l.author] + rest, p) == (rest, Parser(Some(Header(l.title, l.author)), [], Flush(p)))
  {
    var s := [l.title, l.author] + rest;
    assert s[0] == l.title && s[1] == l.author && s[2..] == rest;
    assert Classify(JsTrim(s[0])) == Title;
  }

  lemma SerializeCons(ls: seq<Level>)
    requires |ls| > 0
    ensures Serialize(ls) == [ls[0].title, ls[0].author] + (ls[0].grid + Serialize(ls[1..]))
  {
  }

  lemma {:induction false} OpenLevel(l: Level, tail: seq<string>, p: Parser)
    requires WellFormed(l) && LoopInv(p)
    ensures ParseFrom([l.title, l.author] + (l.grid + tail), p)
         == ParseFrom(tail, Parser(Some(Header(l.title, l.author)), l.grid, Flush(p)))
  {
    var q := Parser(Some(Header(l.title, l.author)), [], Flush(p));
    HeaderStep(l, l.grid + tail, p);
    RowsCollected(l.grid, tail, q);
    assert q.(rows := q.rows + l.grid) == Parser(Some(Header(l.title, l.author)), l.grid, Flush(p));
  }

  /** The parser state after the first level of a serialized list has been read. */
  function AfterFirst(ls: seq<Level>, p: Parser): Parser
    requires |ls| > 0
  {
    Parser(Some(Header(ls[0].title, ls[0].author)), ls[0].grid, Flush(p))
  }

  lemma TailWellFormed(ls: seq<Level>)
    requires |ls| > 0 && AllWellFormed(ls)
    ensures AllWellFormed(ls[1..])
  {
    forall k | 0 <= k < |ls[1..]| ensures WellFormed(ls[1..][k]) {
      assert ls[1..][k] == ls[k + 1];
    }
  }

  lemma FlushFirst(ls: seq<Level>, p: Parser)
    requires |ls| > 0 && |ls[0].grid| > 0
    ensures Flush(AfterFirst(ls, p)) + ls[1..] == Flush(p) + ls
  {
    assert Flush(AfterFirst(ls, p)) == Flush(p) + [ls[0]];
    assert ls == [ls[0]] + ls[1..];
  }

  /** The first level of a serialized list is read off whole. */
  lemma FirstLevelLines(ls: seq<Level>, p: Parser)
    requires |ls| > 0 && WellFormed(ls[0]) && LoopInv(p)
    ensures ParseFrom(Serialize(ls), p) == ParseFrom(Serialize(ls[1..]), AfterFirst(ls, p))
  {
    SerializeCons(ls);
    OpenLevel(ls[0], Serialize(ls[1..]), p);
  }

  lemma {:induction false} SerializeParsesFrom(ls: seq<Level>, p: Parser)
    requires AllWellFormed(ls)
    requires LoopInv(p)
    ensures ParseFrom(Serialize(ls), p) == Flush(p) + ls
    decreases |ls|
  {
    if |ls| > 0 {
      FirstLevelLines(ls, p);
      TailWellFormed(ls);
      SerializeParsesFrom(ls[1..], AfterFirst(ls, p));
      assert WellFormed(ls[0]);
      FlushFirst(ls, p);
    } else {
      assert Serialize(ls) == [];
    }
  }

  /** Parsing the corpus lines of well-formed levels gives those levels back,
      in order: a corpus of N title/author/grid blocks yields exactly N levels. */
  lemma ParseSerialize(ls: seq<Level>)
    requires forall k :: 0 <= k < |ls| ==> WellFormed(ls[k])
    ensures Parse(Serialize(ls)) == ls
  {
    SerializeParsesFrom(ls, Initial);
  }

  /** Every line of `lines` is one the parser skips once trimmed. */
  predicate AllSkipped(lines: seq<string>) {
    forall k :: 0 <= k < |lines| ==> Skipped(JsTrim(lines[k]))
  }

  /** A skipped line changes nothing, wherever it occurs, except in the
      author position right after a title (where it is not classified). */
  lemma SkippedIgnored(line: string, rest: seq<string>, p: Parser)
    requires Skipped(JsTrim(line))
    ensures ParseFrom([line] + rest, p) == ParseFrom(rest, p)
  {
    assert ([line] + rest)[1..] == rest;
  }

  /** ... and so does a block of them. */
  lemma {:induction false} SkippedLinesIgnored(pre: seq<string>, rest: seq<string>, p: Parser)
    requires AllSkipped(pre)
    ensures ParseFrom(pre + rest, p) == ParseFrom(rest, p)
    decreases |pre|
  {
    if |pre| > 0 {
      assert pre + rest == [pre[0]] + (pre[1..] + rest);
      SkippedIgnored(pre[0], pre[1..] + rest, p);
      assert AllSkipped(pre[1..]) by {
        forall k | 0 <= k < |pre[1..]| ensures Skipped(JsTrim(pre[1..][k])) {
          assert pre[1..][k] == pre[k + 1];
        }
      }
      SkippedLinesIgnored(pre[1..], rest, p);
    } else {
      assert pre + rest == rest;
    }
  }

  /** The two header lines of a corpus file: the game's name and a version number. */
  const CorpusHeader: seq<string> := ["Mushroom Man levels", "1"]

  /** The parser skips both header lines. */
  lemma CorpusHeaderSkipped()
    ensures AllSkipped(CorpusHeader)
  {
    var name := CorpusHeader[0];
    var version := CorpusHeader[1];
    assert JsTrim(name) == name by {
      TrimTrimmed(name, Js);
    }
    assert Skipped(name) by {
      assert name[..12] == "Mushroom Man";
    }
    assert JsTrim(version) == version by {
      TrimTrimmed(version, Js);
    }
    assert AllDigits(version) by {
      assert IsDigit(version[0]);
    }
  }

  /** The corpus lines of a list of levels with skipped lines after each
      block: `gaps[k]` follows the grid rows of level `k`. Blank separator
      lines and the empty piece after a final newline are such gaps. */
  function SerializeSpaced(ls: seq<Level>, gaps: seq<seq<string>>): seq<string>
    requires |gaps| == |ls|
    decreases |ls|
  {
    if |ls| == 0 then []
    else [ls[0].title, ls[0].author] + ls[0].grid + gaps[0] + SerializeSpaced(ls[1..], gaps[1..])
  }

  /** Every gap is made of skipped lines. */
  predicate AllGapsSkipped(gaps: seq<seq<string>>) {
    forall j :: 0 <= j < |gaps| ==> AllSkipped(gaps[j])
  }

  lemma SpacedCons(ls: seq<Level>, gaps: seq<seq<string>>)
    requires |gaps| == |ls| > 0
    ensures SerializeSpaced(ls, gaps)
      == [ls[0].title, ls[0].author] + (ls[0].grid + (gaps[0] + SerializeSpaced(ls[1..], gaps[1..])))
  {
  }

  lemma {:induction false} SpacedParsesFrom(ls: seq<Level>, gaps: seq<seq<string>>, p: Parser)
    requires |gaps| == |ls| && AllWellFormed(ls) && AllGapsSkipped(gaps)
    requires LoopInv(p)
    ensures ParseFrom(SerializeSpaced(ls, gaps), p) == Flush(p) + ls
    decreases |ls|
  {
    if |ls| > 0 {
      var tail := SerializeSpaced(ls[1..], gaps[1..]);
      var q := AfterFirst(ls, p);
      SpacedCons(ls, gaps);
      assert WellFormed(ls[0]);
      OpenLevel(ls[0], gaps[0] + tail, p);
      assert AllSkipped(gaps[0]);
      SkippedLinesIgnored(gaps[0], tail, q);
      TailWellFormed(ls);
      assert AllGapsSkipped(gaps[1..]) by {
        forall j | 0 <= j < |gaps[1..]| ensures AllSkipped(gaps[1..][j]) {
          assert gaps[1..][j] == gaps[j + 1];
        }
      }
      SpacedParsesFrom(ls[1..], gaps[1..], q);
      FlushFirst(ls, p);
    } else {
      assert SerializeSpaced(ls, gaps) == [];
    }
  }

  /** No line contains a line feed. */
  predicate NoNewlines(lines: seq<string>) {
    forall k :: 0 <= k < |lines| ==> '\n' !in lines[k]
  }

  /** The round trip from the full text of a corpus file: any skipped
      header lines, then the level blocks, each followed by any skipped
      lines (blank separators, a final newline). */
  lemma ParseCorpusText(header: seq<string>, ls: seq<Level>, gaps: seq<seq<string>>)
    requires AllSkipped(header)
    requires |gaps| == |ls| && AllWellFormed(ls) && AllGapsSkipped(gaps)
    requires NoNewlines(header + SerializeSpaced(ls, gaps))
    ensures var lines := header + SerializeSpaced(ls, gaps);
      ParseText(if |lines| == 0 then "" else JoinLines(lines)) == ls
  {
    var body := SerializeSpaced(ls, gaps);
    var lines := header + body;
    SpacedParsesFrom(ls, gaps, Initial);
    if |lines| == 0 {
      assert |ls| == 0 by {
        if |ls| > 0 { SpacedCons(ls, gaps); }
      }
      assert SplitLines("") == [""];
      assert Classify(JsTrim("")) == Ignored by { TrimTrimmed("", Js); }
      assert Step([""], Initial) == ([], Initial);
    } else {
      SplitJoin(lines);
      SkippedLinesIgnored(header, body, Initial);
    }
  }

  // ---------------------------------------------------------------------
  // Which lines become levels

  /** Rows or blank lines that come before the first title are dropped. */
  lemma {:induction false} LeadingRowsDropped(pre: seq<string>, lines: seq<string>)
    requires forall k :: 0 <= k < |pre| ==> Skipped(JsTrim(pre[k])) || IsGridLine(JsTrim(pre[k]))
    ensures Parse(pre + lines) == Parse(lines)
    decreases |pre|
  {
    if |pre| > 0 {
      assert (pre + lines)[0] == pre[0];
      assert (pre + lines)[1..] == pre[1..] + lines;
      assert Step(pre + lines, Initial) == (pre[1..] + lines, Initial);
      LeadingRowsDropped(pre[1..], lines);
    } else {
      assert pre + lines == lines;
    }
  }

  /** A line that opens a level. */
  predicate IsTitleLine(raw: string) {
    !Skipped(JsTrim(raw)) && !IsGridLine(JsTrim(raw))
  }

  /** A title whose block holds no grid row — the next title follows its
      author line directly — is dropped, and so is its author. */
  lemma TitleWithoutRowsDropped(title: string, author: string, rest: seq<string>, p: Parser)
    requires IsTitleLine(title) && |rest| > 0 && IsTitleLine(rest[0])
    requires LoopInv(p)
    ensures ParseFrom([title, author] + rest, p) == ParseFrom(rest, p)
  {
    var all := [title, author] + rest;
    assert all[0] == title && all[1] == author && all[2..] == rest;
    var q := Parser(Some(Header(JsTrim(title), JsTrim(author))), [], Flush(p));
    assert Step(all, p) == (rest, q);
    assert Step(rest, q) == Step(rest, p);
  }

  /** A title on the last line, or followed only by its author, yields no level. */
  lemma TrailingTitleDropped(block: seq<string>, p: Parser)
    requires 1 <= |block| <= 2 && IsTitleLine(block[0])
    requires LoopInv(p)
    ensures ParseFrom(block, p) == Flush(p)
  {
    var q := Step(block, p).1;
    assert Step(block, p).0 == [];
    assert q.rows == [] && q.levels == Flush(p);
  }

  // ---------------------------------------------------------------------
  // Levels come out in source order

  /** `a` can be obtained from `b` by deleting elements. */
  predicate IsSubseq<T(==)>(a: seq<T>, b: seq<T>)
    decreases |b|
  {
    |a| == 0 || (|b| > 0 && ((a[0] == b[0] && IsSubseq(a[1..], b[1..])) || IsSubseq(a, b[1..])))
  }

  lemma {:induction false} SubseqLength<T>(a: seq<T>, b: seq<T>)
    requires IsSubseq(a, b)
    ensures |a| <= |b|
    decreases |b|
  {
    if |a| > 0 {
      if a[0] == b[0] && IsSubseq(a[1..], b[1..]) {
        SubseqLength(a[1..], b[1..]);
      } else {
        SubseqLength(a, b[1..]);
      }
    }
  }

  lemma {:induction false} SubseqOfSuffix<T>(a: seq<T>, c: seq<T>, d: seq<T>)
    requires IsSubseq(a, d)
    ensures IsSubseq(a, c + d)
    decreases |c|
  {
    if |c| > 0 && |a| > 0 {
      assert (c + d)[1..] == c[1..] + d;
      SubseqOfSuffix(a, c[1..], d);
    } else if |c| == 0 {
      assert c + d == d;
    }
  }

  /** The titles the parser reads, in order: the lines it classifies as
      titles, whether or not a level follows. */
  function Titles(rest: seq<string>): seq<string>
    decreases |rest|
  {
    if |rest| == 0 then []
    else
      var line := JsTrim(rest[0]);
      var opens := !Skipped(line) && !IsGridLine(line);
      (if opens then [line] else []) + Titles(if opens && |rest| > 1 then rest[2..] else rest[1..])
  }

  /** The titles of a list of levels. */
  function TitlesOf(ls: seq<Level>): (r: seq<string>)
    ensures |r| == |ls|
    decreases |ls|
  {
    if |ls| == 0 then [] else [ls[0].title] + TitlesOf(ls[1..])
  }

  lemma {:induction false} TitlesOfAppend(a: seq<Level>, b: seq<Level>)
    ensures TitlesOf(a + b) == TitlesOf(a) + TitlesOf(b)
    decreases |a|
  {
    if |a| > 0 {
      assert (a + b)[1..] == a[1..] + b;
      TitlesOfAppend(a[1..], b);
    } else {
      assert a + b == b;
    }
  }

  /** The parser only ever appends to the levels it has emitted. */
  lemma {:induction false} ParseFromAppends(rest: seq<string>, p: Parser)
    ensures ParseFrom(rest, p) == p.levels + ParseFrom(rest, p.(levels := []))
    decreases |rest|
  {
    var p0 := p.(levels := []);
    if |rest| > 0 {
      var (r1, q1) := Step(rest, p);
      var (r2, q2) := Step(rest, p0);
      assert r1 == r2 && q1 == q2.(levels := p.levels + q2.levels);
      ParseFromAppends(r1, q1);
      ParseFromAppends(r2, q2);
      assert q1.(levels := []) == q2.(levels := []);
    }
  }

  /** The title of the pending header, if any. */
  function PendingTitle(cur: Option<Header>): seq<string> {
    if cur.Some? then [cur.value.title] else []
  }

  lemma {:induction false} ParseFromInOrder(rest: seq<string>, p: Parser)
    requires LoopInv(p) && p.levels == []
    ensures IsSubseq(TitlesOf(ParseFrom(rest, p)), PendingTitle(p.cur) + Titles(rest))
    decreases |rest|
  {
    if |rest| == 0 {
      assert TitlesOf(Flush(p)) == (if |p.rows| > 0 && p.cur.Some? then PendingTitle(p.cur) else []);
      assert PendingTitle(p.cur) + [] == PendingTitle(p.cur);
    } else {
      var line := JsTrim(rest[0]);
      var (rest', q) := Step(rest, p);
      if Skipped(line) || IsGridLine(line) {
        assert Titles(rest) == Titles(rest');
        ParseFromInOrder(rest', q);
      } else {
        var f := Flush(p);
        var q0 := q.(levels := []);
        assert q.rows == [] && q.levels == f;
        ParseFromAppends(rest', q);
        ParseFromInOrder(rest', q0);
        var x := ParseFrom(rest', q0);
        TitlesOfAppend(f, x);
        var tail := [line] + Titles(rest');
        assert Titles(rest) == tail;
        assert IsSubseq(TitlesOf(x), tail);
        if |p.rows| > 0 && p.cur.Some? {
          assert TitlesOf(f) == PendingTitle(p.cur);
          var t := p.cur.value.title;
          assert ([t] + TitlesOf(x))[1..] == TitlesOf(x);
          assert ([t] + tail)[1..] == tail;
          assert IsSubseq([t] + TitlesOf(x), [t] + tail);
        } else {
          assert TitlesOf(f) == [];
          assert [] + TitlesOf(x) == TitlesOf(x);
          SubseqOfSuffix(TitlesOf(x), PendingTitle(p.cur), tail);
        }
      }
    }
  }

  /** Levels come out in the order their titles appear, and there are at
      most as many levels as title lines. */
  lemma ParseInOrder(lines: seq<string>)
    ensures IsSubseq(TitlesOf(Parse(lines)), Titles(lines))
    ensures |Parse(lines)| <= |Titles(lines)|
  {
    ParseFromInOrder(lines, Initial);
    assert PendingTitle(None) + Titles(lines) == Titles(lines);
    SubseqLength(TitlesOf(Parse(lines)), Titles(lines));
  }
}
