/**
 * The playing state of `MushroomManGame` in game.js: loading a level,
 * moving the player one cell, what the entered cell does, and the level
 * buttons. The grid is the map of tiles that `renderLevel` drew; a tile
 * removed from the page is a key removed from the map. The player's own
 * circle is drawn as the `s` tile and keeps its grid coordinates when the
 * player walks away, so the start cell stays an ordinary passable tile.
 */
module Game {
  import opened Common
  import opened Levels
  import opened Board
  import opened Teleporter

  /** The four counters shown next to the grid. */
  datatype Resources = Resources(keys: nat, money: nat, bombs: nat, dynamite: nat)

  const NoResources := Resources(0, 0, 0, 0)

  /** The fields of `MushroomManGame` that the game logic reads and writes. */
  datatype Game = Game(
    levels: seq<Level>,
    current: nat,
    tiles: map<Pos, char>,
    player: Pos,
    moves: nat,
    res: Resources)

  /** What one key press did. `LevelComplete` and `GameComplete` carry what
      the completion alert reports: the finished level's index (the alert
      shows it plus one) and the move count. */
  datatype Event =
    | Blocked
    | Moved
    | LevelComplete(level: nat, moves: nat)
    | GameComplete(level: nat, moves: nat)

  /** `loadLevel`: an index past the last level is ignored; otherwise the
      counters and the move count are reset, the grid is redrawn, and the
      player goes to the level's start if it has one. */
  function LoadLevel(g: Game, i: nat): Game {
    if i >= |g.levels| then g
    else
      var b := Render(g.levels[i].grid);
      g.(current := i, moves := 0, res := NoResources, tiles := b.tiles,
         player := if b.start.Some? then b.start.value else g.player)
  }

  /** The constructor followed by `loadLevels`: parse the level file, then
      load the first level. */
  function NewGame(text: string): Game {
    LoadLevel(Game(ParseText(text), 0, map[], (0, 0), 0, NoResources), 0)
  }

  /** The reset button. */
  function ResetLevel(g: Game): Game {
    LoadLevel(g, g.current)
  }

  /** The next-level button: only when a later level exists. */
  function NextLevel(g: Game): Game {
    if g.current + 1 < |g.levels| then LoadLevel(g, g.current + 1) else g
  }

  /** `canMoveTo`: empty cells are open, walls and impenetrable walls never
      are, and a lock is open only while a key is held. */
  predicate CanMoveTo(g: Game, p: Pos) {
    p !in g.tiles
    || (g.tiles[p] != 'w' && g.tiles[p] != 'i' && (g.tiles[p] != 'l' || g.res.keys != 0))
  }

  /** `handleTileInteraction` on the cell `p` the player has just entered,
      including `handleLevelComplete` on the exit. */
  function Interact(g: Game, p: Pos): (Game, Event) {
    if p !in g.tiles then (g, Moved)
    else match g.tiles[p]
      case 'k' => (g.(res := g.res.(keys := g.res.keys + 1), tiles := g.tiles - {p}), Moved)
      case 'f' => (g.(res := g.res.(money := g.res.money + 1), tiles := g.tiles - {p}), Moved)
      case 'b' => (g.(res := g.res.(bombs := g.res.bombs + 1), tiles := g.tiles - {p}), Moved)
      case 'd' => (g.(res := g.res.(dynamite := g.res.dynamite + 1), tiles := g.tiles - {p}), Moved)
      case 'l' =>
        if g.res.keys > 0 then (g.(res := g.res.(keys := g.res.keys - 1), tiles := g.tiles - {p}), Moved)
        else (g, Moved)
      case 'e' =>
        if g.current + 1 < |g.levels| then (LoadLevel(g, g.current + 1), LevelComplete(g.current, g.moves))
        else (g, GameComplete(g.current, g.moves))
      case _ => (g, Moved)
  }

  /** The cell one step of `(dx, dy)` away from the player. */
  function Target(g: Game, dx: int, dy: int): Pos {
    (g.player.0 + dx, g.player.1 + dy)
  }

  /** `movePlayer`: a blocked step changes nothing; otherwise the player
      moves, the move is counted, and the entered cell acts. */
  function Move(g: Game, dx: int, dy: int): (Game, Event) {
    var q := Target(g, dx, dy);
    if !CanMoveTo(g, q) then (g, Blocked)
    else Interact(g.(player := q, moves := g.moves + 1), q)
  }

  /** The keyboard handler: arrow keys and W/A/S/D in either case. */
  function KeyDirection(key: string): Option<Pos> {
    if key == "ArrowUp" || key == "w" || key == "W" then Some((0, -1))
    else if key == "ArrowDown" || key == "s" || key == "S" then Some((0, 1))
    else if key == "ArrowLeft" || key == "a" || key == "A" then Some((-1, 0))
    else if key == "ArrowRight" || key == "d" || key == "D" then Some((1, 0))
    else None
  }

  /** One key press: keys without a direction are ignored. */
  function Press(g: Game, key: string): Game {
    match KeyDirection(key)
    case None => g
    case Some(d) => Move(g, d.0, d.1).0
  }

  /** A sequence of key presses, in order. */
  function Play(g: Game, keys: seq<string>): Game
    decreases |keys|
  {
    if |keys| == 0 then g else Play(Press(g, keys[0]), keys[1..])
  }

  // ---------------------------------------------------------------------
  // Properties
  // ---------------------------------------------------------------------

  /** Only the four pickups and locks are removed when entered. */
  predicate IsPickup(c: char) {
    c == 'k' || c == 'f' || c == 'b' || c == 'd'
  }

  /** The number of tiles showing `c`. */
  function Count(tiles: map<Pos, char>, c: char): nat {
    |set p | p in tiles && tiles[p] == c|
  }

  /** What the player holds plus what is still lying on the grid: a key
      still to pick up counts as one, a lock still to open as minus one. */
  function Potential(g: Game): (int, int, int, int) {
    (g.res.keys + Count(g.tiles, 'k') - Count(g.tiles, 'l'),
     g.res.money + Count(g.tiles, 'f'),
     g.res.bombs + Count(g.tiles, 'b'),
     g.res.dynamite + Count(g.tiles, 'd'))
  }

  /** Every tile on the grid is one of the drawn symbols. */
  ghost predicate SymbolsOnly(g: Game) {
    forall p :: p in g.tiles ==> IsSymbol(g.tiles[p])
  }

  /** The player never stands on a wall, an unopened lock or an
      uncollected pickup. */
  predicate Standing(g: Game) {
    g.player in g.tiles ==>
      var c := g.tiles[g.player];
      c != 'w' && c != 'i' && c != 'l' && !IsPickup(c)
  }

  /** Every level has a start cell, so loading it places the player. */
  ghost predicate AllHaveStart(levels: seq<Level>) {
    forall i :: 0 <= i < |levels| ==> Render(levels[i].grid).start.Some?
  }

  /** The state invariant kept by every key press. */
  ghost predicate Inv(g: Game) {
    AllHaveStart(g.levels) && SymbolsOnly(g) && Standing(g)
  }

  lemma CountRemove(tiles: map<Pos, char>, p: Pos, c: char)
    requires p in tiles
    ensures Count(tiles - {p}, c) == if tiles[p] == c then Count(tiles, c) - 1 else Count(tiles, c)
  {
    var s := set q | q in tiles && tiles[q] == c;
    var s' := set q | q in tiles - {p} && (tiles - {p})[q] == c;
    assert s' == s - {p};
  }

  /** Loading a level that exists resets the counters and the move count,
      keeps the levels, and draws exactly that level's tiles; the player is
      on the level's start, or where they were when it has none. An index
      past the end changes nothing. */
  lemma LoadLevelSpec(g: Game, i: nat)
    ensures var r := LoadLevel(g, i);
      && r.levels == g.levels
      && (i >= |g.levels| ==> r == g)
      && (i < |g.levels| ==>
            var rows := g.levels[i].grid;
            && r.current == i && r.moves == 0 && r.res == NoResources
            && (forall p :: p in r.tiles <==> InLevel(rows, p) && IsSymbol(CellAt(rows, p)))
            && (forall p :: p in r.tiles ==> r.tiles[p] == CellAt(rows, p))
            && (Render(rows).start.Some? ==> r.player == Render(rows).start.value)
            && (Render(rows).start.Some? ==> r.player in r.tiles && r.tiles[r.player] == 's')
            && (Render(rows).start.None? ==> r.player == g.player))
  {
    if i < |g.levels| {
      var rows := g.levels[i].grid;
      RenderTiles(rows);
      RenderStart(rows);
    }
  }

  /** Loading the same level twice is loading it once; in particular the
      reset button is idempotent. */
  lemma LoadLevelIdempotent(g: Game, i: nat)
    ensures LoadLevel(LoadLevel(g, i), i) == LoadLevel(g, i)
  {
  }

  lemma ResetIdempotent(g: Game)
    ensures ResetLevel(ResetLevel(g)) == ResetLevel(g)
  {
    LoadLevelSpec(g, g.current);
  }

  /** A new game shows the first parsed level, or stays empty when the
      text holds no level. */
  lemma NewGameSpec(text: string)
    ensures var g := NewGame(text);
      && g.levels == ParseText(text)
      && g.current == 0 && g.moves == 0 && g.res == NoResources
      && (|g.levels| == 0 ==> g.tiles == map[] && g.player == (0, 0))
      && (|g.levels| > 0 ==> g.tiles == Render(g.levels[0].grid).tiles)
  {
  }

  /** The next-level button moves forward exactly when a later level
      exists, and never past the last one. */
  lemma NextLevelSpec(g: Game)
    requires g.current < |g.levels|
    ensures var r := NextLevel(g);
      && r.levels == g.levels && r.current < |r.levels|
      && (g.current + 1 < |g.levels| <==> r.current == g.current + 1)
      && (g.current + 1 >= |g.levels| ==> r == g)
  {
  }

  /** A step is blocked exactly when `canMoveTo` refuses the target, and a
      blocked step changes nothing. */
  lemma MoveBlocked(g: Game, dx: int, dy: int)
    ensures Move(g, dx, dy).1 == Blocked <==> !CanMoveTo(g, Target(g, dx, dy))
    ensures Move(g, dx, dy).1 == Blocked ==> Move(g, dx, dy).0 == g
  {
  }

  /** Inside a level (no level change) a step lands the player on the
      target, counts one move, keeps the level, and changes the grid at
      most by removing the entered tile; the grid and the counters change
      only when that tile is a pickup or a lock. */
  lemma MoveWithinLevel(g: Game, dx: int, dy: int)
    requires Move(g, dx, dy).1.Moved? || Move(g, dx, dy).1.GameComplete?
    ensures var (r, _) := Move(g, dx, dy);
      var q := Target(g, dx, dy);
      && r.player == q && r.moves == g.moves + 1
      && r.levels == g.levels && r.current == g.current
      && (r.tiles == g.tiles || (q in g.tiles && r.tiles == g.tiles - {q}))
      && (q !in g.tiles || !(IsPickup(g.tiles[q]) || g.tiles[q] == 'l') ==> r.tiles == g.tiles && r.res == g.res)
  {
  }

  /** A cell without behaviour of its own: not a wall, a lock, a pickup or
      the exit. The start, holes, cement, jellybeans, guards, oxygen, guns,
      water and teleporters are all of this kind. */
  predicate Inert(c: char) {
    c != 'w' && c != 'i' && c != 'l' && !IsPickup(c) && c != 'e'
  }

  /** Stepping onto a cell without behaviour only moves the player and
      counts the move: the tiles and the counters stay as they were. */
  lemma MoveInert(g: Game, dx: int, dy: int)
    requires Target(g, dx, dy) in g.tiles && Inert(g.tiles[Target(g, dx, dy)])
    ensures Move(g, dx, dy) == (g.(player := Target(g, dx, dy), moves := g.moves + 1), Moved)
  {
  }

  /** Entering a key, money, bomb or dynamite cell takes the item: its
      counter goes up by one and the tile is gone. Entering a lock uses a
      key and opens it. */
  lemma MoveCollects(g: Game, dx: int, dy: int)
    requires CanMoveTo(g, Target(g, dx, dy))
    ensures var (r, e) := Move(g, dx, dy);
      var q := Target(g, dx, dy);
      && (q in g.tiles && (IsPickup(g.tiles[q]) || g.tiles[q] == 'l') ==> e == Moved && q !in r.tiles)
      && (q in g.tiles && g.tiles[q] == 'k' ==> r.res == g.res.(keys := g.res.keys + 1))
      && (q in g.tiles && g.tiles[q] == 'f' ==> r.res == g.res.(money := g.res.money + 1))
      && (q in g.tiles && g.tiles[q] == 'b' ==> r.res == g.res.(bombs := g.res.bombs + 1))
      && (q in g.tiles && g.tiles[q] == 'd' ==> r.res == g.res.(dynamite := g.res.dynamite + 1))
      && (q in g.tiles && g.tiles[q] == 'l' ==> g.res.keys > 0 && r.res == g.res.(keys := g.res.keys - 1))
  {
  }

  /** Reaching the exit finishes the level: the next level is loaded when
      there is one, and otherwise the game is won and nothing changes but
      the step itself. No other cell finishes a level. */
  lemma MoveExit(g: Game, dx: int, dy: int)
    ensures var (r, e) := Move(g, dx, dy);
      var q := Target(g, dx, dy);
      && ((e.LevelComplete? || e.GameComplete?) <==> CanMoveTo(g, q) && q in g.tiles && g.tiles[q] == 'e')
      && (e.LevelComplete? <==> (e.LevelComplete? || e.GameComplete?) && g.current + 1 < |g.levels|)
      && (e.LevelComplete? ==>
            && e.level == g.current && e.moves == g.moves + 1
            && r.current == g.current + 1 && r.moves == 0 && r.res == NoResources
            && r == LoadLevel(g.(player := q), g.current + 1))
      && (e.GameComplete? ==> e.level == g.current && e.moves == g.moves + 1 && r.tiles == g.tiles)
  {
  }

  /** Within a level nothing is created or lost: held items plus items on
      the grid stay constant, with an unopened lock cancelling a key. */
  lemma {:induction false} MoveConserves(g: Game, dx: int, dy: int)
    requires !Move(g, dx, dy).1.LevelComplete?
    ensures Potential(Move(g, dx, dy).0) == Potential(g)
  {
    var q := Target(g, dx, dy);
    if CanMoveTo(g, q) && q in g.tiles {
      var c := g.tiles[q];
      if IsPickup(c) || (c == 'l' && g.res.keys > 0) {
        CountRemove(g.tiles, q, 'k');
        CountRemove(g.tiles, q, 'l');
        CountRemove(g.tiles, q, 'f');
        CountRemove(g.tiles, q, 'b');
        CountRemove(g.tiles, q, 'd');
      }
    }
  }

  /** Resetting after a step inside a level gives the same state as
      resetting before it, for levels with a start cell. */
  lemma ResetUndoesMove(g: Game, dx: int, dy: int)
    requires g.current < |g.levels| && Render(g.levels[g.current].grid).start.Some?
    requires !Move(g, dx, dy).1.LevelComplete?
    ensures ResetLevel(Move(g, dx, dy).0) == ResetLevel(g)
  {
    if !Move(g, dx, dy).1.Blocked? {
      MoveWithinLevel(g, dx, dy);
    }
  }

  lemma LoadLevelKeepsInv(g: Game, i: nat)
    requires Inv(g)
    ensures Inv(LoadLevel(g, i))
  {
    LoadLevelSpec(g, i);
  }

  /** A new game whose levels all have a start cell satisfies the state
      invariant, so every state reached by key presses does too. */
  lemma NewGameInv(text: string)
    requires AllHaveStart(ParseText(text))
    ensures Inv(NewGame(text))
  {
    LoadLevelKeepsInv(Game(ParseText(text), 0, map[], (0, 0), 0, NoResources), 0);
  }

  /** Taking the entered tile away leaves the player on an empty cell. */
  lemma RemoveKeepsInv(g: Game, res: Resources)
    requires AllHaveStart(g.levels) && SymbolsOnly(g)
    ensures Inv(g.(tiles := g.tiles - {g.player}, res := res))
  {
  }

  /** Every step keeps the state invariant. */
  lemma {:induction false} MoveKeepsInv(g: Game, dx: int, dy: int)
    requires Inv(g)
    ensures Inv(Move(g, dx, dy).0)
  {
    var q := Target(g, dx, dy);
    if CanMoveTo(g, q) {
      var g' := g.(player := q, moves := g.moves + 1);
      assert AllHaveStart(g'.levels) && SymbolsOnly(g');
      var r := Interact(g', q).0;
      if q !in g.tiles {
        assert r == g';
      } else {
        var c := g.tiles[q];
        if IsPickup(c) || (c == 'l' && g.res.keys > 0) {
          RemoveKeepsInv(g', r.res);
          assert r == g'.(tiles := g'.tiles - {g'.player}, res := r.res);
        } else if c == 'e' && g.current + 1 < |g.levels| {
          assert Standing(g');
          LoadLevelKeepsInv(g', g.current + 1);
        } else {
          assert r == g';
          assert Standing(g');
        }
      }
    }
  }

  /** Any sequence of key presses keeps the state invariant. */
  lemma {:induction false} PlayKeepsInv(g: Game, keys: seq<string>)
    requires Inv(g)
    ensures Inv(Play(g, keys))
    decreases |keys|
  {
    if |keys| > 0 {
      var d := KeyDirection(keys[0]);
      if d.Some? {
        MoveKeepsInv(g, d.value.0, d.value.1);
      }
      PlayKeepsInv(Press(g, keys[0]), keys[1..]);
    }
  }

  /** Every state the keyboard can reach from a new game keeps the invariant. */
  lemma ReachableInv(text: string, keys: seq<string>)
    requires AllHaveStart(ParseText(text))
    ensures Inv(Play(NewGame(text), keys))
  {
    NewGameInv(text);
    PlayKeepsInv(NewGame(text), keys);
  }

  /** Every recognised key is a step of length one along an axis. */
  lemma KeyDirectionUnit(key: string)
    ensures KeyDirection(key).Some? ==>
      var d := KeyDirection(key).value;
      (d.0 == 0 && (d.1 == 1 || d.1 == -1)) || (d.1 == 0 && (d.0 == 1 || d.0 == -1))
    ensures KeyDirection(key).Some? <==>
      key in {"ArrowUp", "w", "W", "ArrowDown", "s", "S", "ArrowLeft", "a", "A", "ArrowRight", "d", "D"}
  {
  }

  /** There is no bounds check: any cell without a tile is open, so the
      player can step off the drawn grid. */
  lemma MoveOffGrid(g: Game, dx: int, dy: int)
    requires Target(g, dx, dy) !in g.tiles
    ensures Move(g, dx, dy) == (g.(player := Target(g, dx, dy), moves := g.moves + 1), Moved)
  {
  }

  /** The tiles of the one-row level `skle`. */
  lemma SkleBoard()
    ensures Render(["skle"]) == Board(map[(0, 0) := 's', (1, 0) := 'k', (2, 0) := 'l', (3, 0) := 'e'], Some((0, 0)))
  {
    var row := "skle";
    assert Clean(row) == row by {
      assert NoCode(row);
      CleanFixesExactlyCodeFree(row);
    }
    var b0 := Board(map[], None);
    var t1 := map[(0, 0) := 's'];
    var t2 := t1[(1, 0) := 'k'];
    var t3 := t2[(2, 0) := 'l'];
    var t4 := t3[(3, 0) := 'e'];
    var b4 := Board(t4, Some((0, 0)));
    assert PlaceRow(row, 4, 0, b4) == b4;
    assert PlaceRow(row, 3, 0, Board(t3, Some((0, 0)))) == b4 by { assert row[3] == 'e'; }
    assert PlaceRow(row, 2, 0, Board(t2, Some((0, 0)))) == b4 by { assert row[2] == 'l'; }
    assert PlaceRow(row, 1, 0, Board(t1, Some((0, 0)))) == b4 by { assert row[1] == 'k'; }
    assert PlaceRow(row, 0, 0, b0) == b4 by { assert row[0] == 's'; }
    assert Render([row]) == PlaceRows([row], 1, PlaceRow(Clean([row][0]), 0, 0, b0));
    assert t4 == map[(0, 0) := 's', (1, 0) := 'k', (2, 0) := 'l', (3, 0) := 'e'];
  }

  /** The three steps right through `skle`, from any state showing its
      tiles on the last level with the player on the start. */
  lemma SkleMoves(g0: Game)
    requires g0.tiles == map[(0, 0) := 's', (1, 0) := 'k', (2, 0) := 'l', (3, 0) := 'e']
    requires g0.player == (0, 0) && g0.moves == 0 && g0.res == NoResources && g0.current + 1 >= |g0.levels|
    ensures && Move(g0, 1, 0).1 == Moved
      && Move(g0, 1, 0).0.res.keys == 1
      && Move(Move(g0, 1, 0).0, 1, 0).1 == Moved
      && Move(Move(g0, 1, 0).0, 1, 0).0.res.keys == 0
      && Move(Move(Move(g0, 1, 0).0, 1, 0).0, 1, 0).1 == GameComplete(g0.current, 3)
  {
    var t1 := g0.tiles - {(1, 0)};
    var g1 := g0.(tiles := t1, player := (1, 0), moves := 1, res := Resources(1, 0, 0, 0));
    assert Move(g0, 1, 0) == (g1, Moved) by {
      assert (1, 0) in g0.tiles && g0.tiles[(1, 0)] == 'k';
    }
    var t2 := t1 - {(2, 0)};
    var g2 := g0.(tiles := t2, player := (2, 0), moves := 2);
    assert Move(g1, 1, 0) == (g2, Moved) by {
      assert (2, 0) in t1 && t1[(2, 0)] == 'l';
    }
    assert Move(g2, 1, 0).1 == GameComplete(g0.current, 3) by {
      assert (3, 0) in t2 && t2[(3, 0)] == 'e';
    }
  }

  /** The one-level game `skle`: pressing right three times picks up the
      key, opens the lock with it, and reaches the exit of the last level
      in three moves. */
  lemma PlayExample()
    ensures var g0 := LoadLevel(Game([Level("Keys", "Anon", ["skle"])], 0, map[], (9, 9), 0, NoResources), 0);
      && g0.player == (0, 0)
      && Move(g0, 1, 0).1 == Moved
      && Move(g0, 1, 0).0.res.keys == 1
      && Move(Move(g0, 1, 0).0, 1, 0).1 == Moved
      && Move(Move(g0, 1, 0).0, 1, 0).0.res.keys == 0
      && Move(Move(Move(g0, 1, 0).0, 1, 0).0, 1, 0).1 == GameComplete(0, 3)
  {
    var levels := [Level("Keys", "Anon", ["skle"])];
    var t4 := map[(0, 0) := 's', (1, 0) := 'k', (2, 0) := 'l', (3, 0) := 'e'];
    var g0 := Game(levels, 0, t4, (0, 0), 0, NoResources);
    assert LoadLevel(Game(levels, 0, map[], (9, 9), 0, NoResources), 0) == g0 by {
      SkleBoard();
    }
    SkleMoves(g0);
  }
}
