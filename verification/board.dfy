/**
 * Building a level's grid (`renderLevel` and the symbol switch of
 * `createTile` in game.js). Each row is cleaned of teleporter codes first,
 * so column `x` is the `x`-th character of the cleaned row. A character
 * the switch knows becomes a tile at `(x, y)`; any other character is empty
 * floor and produces nothing. The last `s` seen, in row-major order,
 * becomes the player's start.
 */
module Board {
  import opened Common
  import opened Teleporter

  /** The characters `createTile` draws: wall, impenetrable wall, start,
      exit, lock, key, hole, cement, jellybean, bomb, dynamite, guard,
      money, oxygen, gun, water and teleporter. */
  predicate IsSymbol(c: char) {
    || c == 'w' || c == 'i' || c == 's' || c == 'e' || c == 'l' || c == 'k'
    || c == 'h' || c == 'c' || c == 'j' || c == 'b' || c == 'd' || c == 'g'
    || c == 'f' || c == 'o' || c == 'n' || c == '~' || c == 't'
  }

  /** The tiles of a level keyed by coordinate, and the player's start if
      the level has one. */
  datatype Board = Board(tiles: map<Pos, char>, start: Option<Pos>)

  /** The inner loop of `renderLevel` over the cleaned row `row` from column `x`. */
  function PlaceRow(row: string, x: nat, y: nat, b: Board): Board
    decreases |row| - x
  {
    if x >= |row| then b
    else
      var c := row[x];
      var tiles := if IsSymbol(c) then b.tiles[(x, y) := c] else b.tiles;
      var start := if c == 's' then Some((x, y)) else b.start;
      PlaceRow(row, x + 1, y, Board(tiles, start))
  }

  /** The outer loop of `renderLevel` over the rows from row `y`. */
  function PlaceRows(rows: seq<string>, y: nat, b: Board): Board
    decreases |rows| - y
  {
    if y >= |rows| then b else PlaceRows(rows, y + 1, PlaceRow(Clean(rows[y]), 0, y, b))
  }

  /** `renderLevel`: the board of a level's grid rows. */
  function Render(rows: seq<string>): Board {
    PlaceRows(rows, 0, Board(map[], None))
  }

  /** `p` is a column of the cleaned row `p.1`. */
  predicate InLevel(rows: seq<string>, p: Pos) {
    0 <= p.1 < |rows| && 0 <= p.0 < |Clean(rows[p.1])|
  }

  /** The character at `p` of the cleaned rows. */
  function CellAt(rows: seq<string>, p: Pos): char
    requires InLevel(rows, p)
  {
    Clean(rows[p.1])[p.0]
  }

  /** `q` comes no later than `p` in row-major order. */
  predicate RowMajorLe(q: Pos, p: Pos) {
    q.1 < p.1 || (q.1 == p.1 && q.0 <= p.0)
  }

  /** A start cell at or below row `y`. */
  predicate StartFrom(rows: seq<string>, y: int, q: Pos) {
    InLevel(rows, q) && q.1 >= y && CellAt(rows, q) == 's'
  }

  lemma {:induction false} PlaceRowTiles(row: string, x: nat, y: nat, b: Board)
    requires forall p :: p in b.tiles ==> p.1 != y || p.0 < x
    ensures var r := PlaceRow(row, x, y, b).tiles;
      && (forall p :: p in r <==> p in b.tiles || (p.1 == y && x <= p.0 < |row| && IsSymbol(row[p.0])))
      && (forall p :: p in b.tiles ==> r[p] == b.tiles[p])
      && (forall p :: p in r && p !in b.tiles ==> p.1 == y && x <= p.0 < |row| && r[p] == row[p.0])
    decreases |row| - x
  {
    if x < |row| {
      var c := row[x];
      var tiles := if IsSymbol(c) then b.tiles[(x, y) := c] else b.tiles;
      var start := if c == 's' then Some((x, y)) else b.start;
      PlaceRowTiles(row, x + 1, y, Board(tiles, start));
    }
  }

  lemma {:induction false} PlaceRowStart(row: string, x: nat, y: nat, b: Board)
    ensures var r := PlaceRow(row, x, y, b).start;
      && ((forall k :: x <= k < |row| ==> row[k] != 's') ==> r == b.start)
      && ((exists k :: x <= k < |row| && row[k] == 's') ==>
            && r.Some? && r.value.1 == y && x <= r.value.0 < |row| && row[r.value.0] == 's'
            && forall k :: r.value.0 < k < |row| ==> row[k] != 's')
    decreases |row| - x
  {
    if x < |row| {
      var c := row[x];
      var tiles := if IsSymbol(c) then b.tiles[(x, y) := c] else b.tiles;
      var start := if c == 's' then Some((x, y)) else b.start;
      PlaceRowStart(row, x + 1, y, Board(tiles, start));
    }
  }

  lemma {:induction false} PlaceRowsTiles(rows: seq<string>, y: nat, b: Board)
    requires forall p :: p in b.tiles ==> p.1 < y
    ensures var r := PlaceRows(rows, y, b).tiles;
      && (forall p :: p in r <==> p in b.tiles || (y <= p.1 && InLevel(rows, p) && IsSymbol(CellAt(rows, p))))
      && (forall p :: p in b.tiles ==> r[p] == b.tiles[p])
      && (forall p :: p in r && p !in b.tiles ==> InLevel(rows, p) && r[p] == CellAt(rows, p))
    decreases |rows| - y
  {
    if y < |rows| {
      var row := Clean(rows[y]);
      var b' := PlaceRow(row, 0, y, b);
      PlaceRowTiles(row, 0, y, b);
      PlaceRowsTiles(rows, y + 1, b');
    }
  }

  /** No start cell at or below row `y`. */
  ghost predicate NoStartFrom(rows: seq<string>, y: int) {
    forall q :: !StartFrom(rows, y, q)
  }

  /** `p` is the last start cell, in row-major order, at or below row `y`. */
  ghost predicate LastStartFrom(rows: seq<string>, y: int, p: Pos) {
    StartFrom(rows, y, p) && forall q :: StartFrom(rows, y, q) ==> RowMajorLe(q, p)
  }

  lemma {:induction false} PlaceRowsStart(rows: seq<string>, y: nat, b: Board)
    ensures var r := PlaceRows(rows, y, b).start;
      && (NoStartFrom(rows, y) ==> r == b.start)
      && (!NoStartFrom(rows, y) ==> r.Some? && LastStartFrom(rows, y, r.value))
    decreases |rows| - y
  {
    if y < |rows| {
      var row := Clean(rows[y]);
      var b' := PlaceRow(row, 0, y, b);
      PlaceRowStart(row, 0, y, b);
      PlaceRowsStart(rows, y + 1, b');
      var r := PlaceRows(rows, y, b).start;
      assert r == PlaceRows(rows, y + 1, b').start;
      if !NoStartFrom(rows, y + 1) {
        LaterRowWins(rows, y, r.value);
      } else if exists k :: 0 <= k < |row| && row[k] == 's' {
        assert r == b'.start;
        SameRowWins(rows, y, r.value);
      } else {
        assert r == b.start;
        NoStartInRow(rows, y);
      }
    } else {
      forall q | StartFrom(rows, y, q)
        ensures false
      {
      }
    }
  }

  lemma LaterRowWins(rows: seq<string>, y: int, p: Pos)
    requires LastStartFrom(rows, y + 1, p)
    ensures LastStartFrom(rows, y, p) && !NoStartFrom(rows, y)
  {
    forall q | StartFrom(rows, y, q)
      ensures RowMajorLe(q, p)
    {
      if q.1 > y { assert StartFrom(rows, y + 1, q); }
    }
    assert StartFrom(rows, y, p);
  }

  lemma SameRowWins(rows: seq<string>, y: int, p: Pos)
    requires NoStartFrom(rows, y + 1)
    requires 0 <= y < |rows| && p.1 == y && 0 <= p.0 < |Clean(rows[y])| && Clean(rows[y])[p.0] == 's'
    requires forall k :: p.0 < k < |Clean(rows[y])| ==> Clean(rows[y])[k] != 's'
    ensures LastStartFrom(rows, y, p) && !NoStartFrom(rows, y)
  {
    assert StartFrom(rows, y, p);
    forall q | StartFrom(rows, y, q)
      ensures RowMajorLe(q, p)
    {
      assert !StartFrom(rows, y + 1, q);
      assert CellAt(rows, q) == Clean(rows[y])[q.0];
    }
  }

  lemma NoStartInRow(rows: seq<string>, y: int)
    requires NoStartFrom(rows, y + 1)
    requires 0 <= y < |rows| && forall k :: 0 <= k < |Clean(rows[y])| ==> Clean(rows[y])[k] != 's'
    ensures NoStartFrom(rows, y)
  {
    forall q | InLevel(rows, q) && q.1 >= y
      ensures CellAt(rows, q) != 's'
    {
      if q.1 == y {
        assert CellAt(rows, q) == Clean(rows[y])[q.0];
      } else {
        assert !StartFrom(rows, y + 1, q);
      }
    }
  }

  /** The grid holds a tile exactly at the columns of the cleaned rows whose
      character is a tile symbol, and that tile is the character itself: a
      teleporter code takes one column, other characters leave the cell
      empty, and no cell is written twice. */
  lemma RenderTiles(rows: seq<string>)
    ensures forall p :: p in Render(rows).tiles <==> InLevel(rows, p) && IsSymbol(CellAt(rows, p))
    ensures forall p :: p in Render(rows).tiles ==> Render(rows).tiles[p] == CellAt(rows, p)
  {
    PlaceRowsTiles(rows, 0, Board(map[], None));
  }

  /** The player's start is the last `s` in row-major order, and there is
      none exactly when the level has no `s`. */
  lemma RenderStart(rows: seq<string>)
    ensures Render(rows).start.None? <==> forall q :: InLevel(rows, q) ==> CellAt(rows, q) != 's'
    ensures Render(rows).start.Some? ==>
      var p := Render(rows).start.value;
      && InLevel(rows, p) && CellAt(rows, p) == 's'
      && forall q :: InLevel(rows, q) && CellAt(rows, q) == 's' ==> RowMajorLe(q, p)
  {
    PlaceRowsStart(rows, 0, Board(map[], None));
    if NoStartFrom(rows, 0) {
      forall q | InLevel(rows, q)
        ensures CellAt(rows, q) != 's'
      {
        assert !StartFrom(rows, 0, q);
      }
    } else {
      forall q | InLevel(rows, q) && CellAt(rows, q) == 's'
        ensures RowMajorLe(q, Render(rows).start.value)
      {
        assert StartFrom(rows, 0, q);
      }
    }
  }

  /** A teleporter code occupies a single column: in `st12e` the exit is
      drawn in column 2. */
  lemma RenderExample()
    ensures Render(["st12e"]).tiles == map[(0, 0) := 's', (1, 0) := 't', (2, 0) := 'e']
    ensures Render(["st12e"]).start == Some((0, 0))
  {
    var rows := ["st12e"];
    var row := "ste";
    assert Clean(rows[0]) == row by { CleanExample(); }
    var b0 := Board(map[], None);
    var b1 := Board(map[(0, 0) := 's'], Some((0, 0)));
    var b2 := Board(map[(0, 0) := 's', (1, 0) := 't'], Some((0, 0)));
    var b3 := Board(map[(0, 0) := 's', (1, 0) := 't', (2, 0) := 'e'], Some((0, 0)));
    assert PlaceRow(row, 3, 0, b3) == b3;
    assert PlaceRow(row, 2, 0, b2) == b3 by { assert row[2] == 'e'; }
    assert PlaceRow(row, 1, 0, b1) == b3 by { assert row[1] == 't'; }
    assert PlaceRow(row, 0, 0, b0) == b3 by { assert row[0] == 's'; }
    assert Render(rows) == PlaceRows(rows, 1, PlaceRow(row, 0, 0, b0));
  }
}
