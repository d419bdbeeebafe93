# Mushroom Man in Dafny

A model of the playable core of Mushroom Man, a browser puzzle game.
The player walks through a grid, collects keys and other items, opens locks
and reaches the exit. The core comes in two parts:

- game.js, the game itself:
  - `parseLevels` reads a level corpus, with `isGridLine` as its title/row test.
  - `cleanTeleporterCodes` collapses `t\d+` to `t`.
  - `renderLevel` and `createTile` build a level's grid.
  - `loadLevel` resets the state.
  - `movePlayer`, `canMoveTo`, `handleTileInteraction` and `handleLevelComplete` make up a key press.
  - The keyboard, reset and next-level handlers of `setupControls`.
- analyze_levels_final.py, an offline script:
  - it strips line-number prefixes from a corpus file;
  - it classifies lines with its own title and grid tests;
  - it counts levels and measures the largest grid.

Modules, one per concern:

| module | file | models |
|---|---|---|
| `Common` | common.dfy | `Option`, grid coordinates |
| `Text` | text.dfy | character classes; JavaScript and Python trimming (different white-space sets); `split('\n')` |
| `Teleporter` | teleporter.dfy | `t\d+` → `t`, shared by both scripts |
| `Levels` | levels.dfy | `parseLevels` as a step function over the remaining lines |
| `Board` | board.dfy | `renderLevel`/`createTile`: the map from coordinates to tile symbols, and the start cell |
| `Game` | game.dfy | the game state, `loadLevel`, one key press, the reset and next-level buttons |
| `Analysis` | analysis.dfy | the Python classifiers, line preparation, and the counting loop as a verified method |

How the model reads the code:

- The page's SVG elements are a `map<Pos, char>` from coordinates to the drawn symbol. `tile.remove()` removes a key from the map. The player's own circle is drawn as the `s` tile. It keeps its `data-x`/`data-y` attributes when the player walks away, so the start cell stays an ordinary passable tile.
- An `alert` becomes an `Event` value returned with the new state.
- game.js draws holes, cement, jellybeans, guards, oxygen, guns, water and teleporters but gives them no behaviour: the player walks onto them and nothing else happens (`Game.MoveInert`). There are no explosions, deaths, oxygen timer or saved progress, and teleporters do not move the player.
- game.js has no bounds check. Any cell without a tile is open, so the player can walk off the drawn grid (`Game.MoveOffGrid`).
- The two scripts disagree about which lines are grid rows:
  - A teleporter row such as `t11www` is a row for the game but not for the analyser (`Analysis.TeleporterRowIsGameGridLine`, `Analysis.TeleporterRowIsNotGridLine`).
  - `wW` is a row for the analyser but not for the game (`Analysis.CapitalRowIsGridLine`, `Analysis.CapitalRowIsNotGameGridLine`).
  - Each model keeps its own script's test.

## Model

| member | source | states |
|---|---|---|
| Text.TrimStartSpec | game.js:37 | the leading trim removes a prefix made only of white space, and all of it |
| Text.TrimEndSpec | game.js:37 | the trailing trim removes a suffix made only of white space, and all of it |
| Text.TrimSpec | game.js:37 | the trimmed line has no white space at either end, and the original is it with only white space added around it |
| Text.TrimTrimmed | analyze_levels_final.py:15 | a line with no white space at either end is its own strip |
| Text.TrimIdempotent | game.js:37 | trimming twice is trimming once |
| Text.TrimKeeps | game.js:37 | every non-white-space character of a line survives trimming |
| Text.SplitLines | game.js:32 | `split('\n')` gives at least one piece, and no piece contains a newline |
| Text.JoinSplit | game.js:32 | joining the pieces of a split with newlines gives the text back |
| Text.SplitJoin | game.js:32 | splitting newline-free lines joined by newlines gives the lines back |
| Teleporter.DropDigits | game.js:84 | `\d+` after a `t` consumes the whole leading digit run and stops at the first non-digit |
| Teleporter.Clean | game.js:82-85 | the cleaned row is no longer than the row, starts with the same character, and contains no `t` followed by a digit |
| Teleporter.CleanIsKept | game.js:82-85 | cleaning deletes exactly the code digits, the digits right after a `t` or after another code digit, and keeps every other character in order, digits elsewhere included |
| Teleporter.CleanFixesExactlyCodeFree | analyze_levels_final.py:9-11 | cleaning leaves a row unchanged exactly when it contains no teleporter code |
| Teleporter.CleanIdempotent | game.js:82-85 | cleaning an already cleaned row changes nothing |
| Teleporter.CleanShrinks | game.js:82-85 | a row gets strictly shorter exactly when it contains a code |
| Teleporter.DropDigitsKeepsNonDigits | game.js:84 | skipping a code's digits deletes digits only |
| Teleporter.CleanKeepsNonDigits | game.js:82-85 | cleaning deletes only digits; every other character, `t` included, stays in order |
| Teleporter.DropDigitsOf | game.js:84 | a digit run followed by a non-digit is consumed exactly |
| Teleporter.CodeExample | game.js:83-84 | `t12e` becomes `te` |
| Teleporter.CleanExample | game.js:83-84 | `st12e` becomes `ste` |
| Levels.GridLineIff | game.js:77-80 | a line is a grid line exactly when none of its characters is in `[A-Z]` |
| Levels.Step | game.js:36-66 | one pass of the loop consumes two lines exactly when the line is a title with a line after it, and one line otherwise; a skipped line changes nothing; a row is appended under an open header and changes nothing without one; a title saves the open level, if it has rows, and opens a new one with the next line, trimmed, as its author; the collected rows are cleared exactly when a level is saved, so the new level starts with none |
| Levels.FlushGood | game.js:47-51 | saving the open level adds only a well-formed level |
| Levels.StepGood | game.js:36-66 | every pass keeps the header, the collected rows and the emitted levels in the form the parser stores them |
| Levels.ParseFromWellFormed | game.js:36-72 | every level emitted from any reachable state is well formed |
| Levels.ParseWellFormed | game.js:31-75 | every parsed level has a trimmed title with a capital, a trimmed author, and a non-empty grid of trimmed, non-blank rows without capitals |
| Levels.RowsCollected | game.js:60-65 | under an open header, grid rows are appended to the level in order |
| Levels.HeaderStep | game.js:44-59 | a title line opens a new level and takes the next raw line, trimmed, as its author |
| Levels.OpenLevel | game.js:44-65 | a title, its author and its rows leave the parser with that level open and its rows collected |
| Levels.FirstLevelLines | game.js:44-65 | the first block of a corpus of well-formed levels is read as that level |
| Levels.FlushFirst | game.js:47-51 | a level with rows is saved when the next title arrives or the input ends |
| Levels.SerializeParsesFrom | game.js:36-72 | from any state, parsing the blocks of well-formed levels emits the pending level and then exactly those levels |
| Levels.ParseSerialize | game.js:31-75 | parsing the title/author/rows blocks of N well-formed levels gives back exactly those N levels, in order |
| Levels.SkippedIgnored | game.js:39-42 | a blank line, a "Mushroom Man ..." line or a bare number changes nothing wherever the loop classifies it, from any parser state |
| Levels.SkippedLinesIgnored | game.js:39-42 | so does any block of such lines |
| Levels.CorpusHeaderSkipped | game.js:39-42 | the corpus header `Mushroom Man levels` / `1` consists of skipped lines |
| Levels.SpacedParsesFrom | game.js:36-72 | from any state, parsing the blocks of well-formed levels, each followed by any skipped lines, emits the pending level and then exactly those levels |
| Levels.ParseCorpusText | game.js:31-75 | the round trip holds for the full text of a corpus file: any skipped header lines, the level blocks, blank separator lines between them and a final newline |
| Levels.LeadingRowsDropped | game.js:60-65 | rows and blank lines before the first title are dropped |
| Levels.TitleWithoutRowsDropped | game.js:45-59 | a title whose author is followed directly by another title yields no level |
| Levels.TrailingTitleDropped | game.js:53-72 | a title on the last line, or followed only by its author, yields no level |
| Levels.ParseFromAppends | game.js:47-51 | the parser only ever appends to the levels it has emitted |
| Levels.ParseFromInOrder | game.js:36-72 | the titles of the emitted levels are a subsequence of the pending title and the title lines still to come |
| Levels.ParseInOrder | game.js:31-75 | levels come out in the order of their title lines, and there are at most as many levels as title lines |
| Board.PlaceRowTiles | game.js:118-120 | one row places exactly its symbol cells, each with its own character, and keeps earlier tiles |
| Board.PlaceRowStart | game.js:122-125 | the start moves to the last `s` of the row, and stays put when the row has none |
| Board.PlaceRowsTiles | game.js:116-127 | the rows from `y` on place exactly their symbol cells |
| Board.PlaceRowsStart | game.js:116-127 | the start is the last `s` in row-major order from row `y` on, or unchanged when there is none |
| Board.LaterRowWins | game.js:123-125 | an `s` in a later row overrides any `s` before it |
| Board.SameRowWins | game.js:123-125 | with no `s` below, the last `s` of the row is the start |
| Board.NoStartInRow | game.js:123-125 | no `s` in this row or below means no start from this row on |
| Board.RenderTiles | game.js:116-190 | the grid has a tile exactly at each column of a cleaned row whose character `createTile` draws, and that tile is the character; a teleporter code takes one column |
| Board.RenderStart | game.js:116-127 | there is no start exactly when the level has no `s`; otherwise the start is the last `s` in row-major order |
| Board.RenderExample | game.js:116-127 | `st12e` draws `s`, `t`, `e` in columns 0 to 2 and starts at (0, 0) |
| Game.LoadLevelSpec | game.js:87-106 | loading an existing level resets counters and moves and draws exactly that level's tiles; the player goes to the level's start (by `Board.RenderStart`, the last `s` in row-major order), or stays put when the level has none; an index past the end changes nothing |
| Game.LoadLevelIdempotent | game.js:87-106 | loading the same level twice is loading it once |
| Game.ResetIdempotent | game.js:262-264 | pressing reset twice is pressing it once |
| Game.NewGameSpec | game.js:1-29 | a new game holds the parsed levels and shows the first one with everything at zero, or an empty grid when there is no level |
| Game.NextLevelSpec | game.js:266-270 | the next-level button advances exactly when a later level exists, and never past the last one |
| Game.MoveBlocked | game.js:273-311 | a step is blocked exactly when the target is a wall, an impenetrable wall, or a lock with no key held; a blocked step changes nothing |
| Game.MoveWithinLevel | game.js:273-296 | a step that does not change level puts the player on the target, counts one move, and at most removes the entered tile; the grid and the counters change only when that tile is a pickup or a lock |
| Game.MoveInert | game.js:317-352 | stepping onto the start, a hole, cement, a jellybean, a guard, oxygen, a gun, water or a teleporter only moves the player and counts the move |
| Game.MoveCollects | game.js:317-345 | entering a key, money, bomb or dynamite cell adds one to its counter and removes the tile; entering a lock spends a key and removes it |
| Game.MoveExit | game.js:346-361 | only the exit completes a level; when there is a next level the state becomes exactly that level freshly loaded, and otherwise the game is won with the grid unchanged; the event reports the level and the move count including this step |
| Game.MoveConserves | game.js:317-345 | within a level, items held plus items on the grid stay constant, with an unopened lock cancelling one key |
| Game.ResetUndoesMove | game.js:262-264 | on a level with a start, resetting after a step inside the level is the same as resetting before it |
| Game.LoadLevelKeepsInv | game.js:87-127 | loading keeps the state invariant: every level has a start cell, the grid holds drawn symbols only, and the player is not on a wall, lock or uncollected item |
| Game.RemoveKeepsInv | game.js:324-344 | taking the entered tile away leaves the player on an empty cell |
| Game.MoveKeepsInv | game.js:273-352 | every step, including one that completes a level, keeps the state invariant |
| Game.PlayKeepsInv | game.js:232-260 | every sequence of key presses keeps the state invariant |
| Game.NewGameInv | game.js:1-29 | a new game whose levels all have a start cell satisfies the state invariant |
| Game.ReachableInv | game.js:1-29 | every state the keyboard reaches from a new game satisfies the state invariant |
| Game.KeyDirectionUnit | game.js:233-259 | exactly the twelve handled keys move the player, each one cell along an axis |
| Game.MoveOffGrid | game.js:298-300 | a target with no tile is always entered, even off the drawn grid |
| Game.SkleBoard | game.js:116-127 | the row `skle` draws start, key, lock and exit in columns 0 to 3 |
| Game.SkleMoves | game.js:273-361 | on `skle`, three steps right take the key, open the lock with it and reach the exit on the third move |
| Game.PlayExample | game.js:87-361 | loading the one-level game `skle` and pressing right three times wins the game in three moves |
| Analysis.TitleMatchIff | analyze_levels_final.py:19 | `^[A-Z]+.+$` matches exactly: a capital first, at least two characters before any final newline, and no other newline |
| Analysis.TitleOrAuthorIff | analyze_levels_final.py:13-22 | a line is a title or author exactly when its strip has a capital first, at least two characters and no newline |
| Analysis.LowerSpec | analyze_levels_final.py:34 | the lower-cased line has the same length and no capital; other characters stay, each capital becomes its lower-case letter |
| Analysis.LowerFixes | analyze_levels_final.py:34 | lower-casing changes a line exactly when it has a capital, and is idempotent |
| Analysis.GridLineSpec | analyze_levels_final.py:24-43 | for every line: a grid line is one whose stripped form is non-empty, is not a title or author (a capital first, two or more characters, no line feed after the first), has some game symbol among its distinct lower-cased characters, and has at least half of them game symbols |
| Analysis.GridLineOfBare | analyze_levels_final.py:24-43 | for a line with nothing to strip and no leading capital, the test is: some game symbol, and at least half of its distinct characters are game symbols |
| Analysis.CharSetOfSymbols | analyze_levels_final.py:33-36 | a line of game symbols has only game symbols among its distinct characters |
| Analysis.GameGridLineOfBare | game.js:77-80 | for an untrimmable line, the game's grid test is "no capital anywhere" |
| Analysis.SymbolRowIsGridLine | analyze_levels_final.py:24-43 | a line made only of game symbols is a grid line for the analyser |
| Analysis.SymbolRowIsGameGridLine | game.js:77-80 | a line made only of game symbols is a grid line for the game |
| Analysis.TitleIsNotGameGridLine | analyze_levels_final.py:13-22 | a line the analyser takes for a title or author is never a grid row for the game |
| Analysis.TeleporterRowIsGameGridLine | game.js:77-80 | `t11www` is a grid row for the game |
| Analysis.TeleporterRowIsNotGridLine | analyze_levels_final.py:32-43 | `t11www` is not a grid line for the analyser: `t` and `1` are not game symbols |
| Analysis.TeleporterRowCommon | analyze_levels_final.py:33-40 | among `t`, `1`, `w`, only `w` is a game symbol |
| Analysis.TeleporterRowChars | analyze_levels_final.py:34 | the distinct characters of `t11www` are `t`, `1` and `w` |
| Analysis.CapitalRowIsGridLine | analyze_levels_final.py:24-43 | `wW` is a grid line for the analyser |
| Analysis.CapitalRowIsNotGameGridLine | game.js:77-80 | `wW` is not a grid row for the game |
| Analysis.SpaceRun | analyze_levels_final.py:63 | `\s*` takes the whole white-space run and stops at the first other character |
| Analysis.DigitRun | analyze_levels_final.py:63 | `\d+` takes the whole digit run and stops at the first non-digit |
| Analysis.StripLineNumberSpec | analyze_levels_final.py:63 | `^\s*\d+.` removes nothing exactly when no prefix matches; otherwise it removes the longest matching prefix |
| Analysis.RStripNewlinesSpec | analyze_levels_final.py:63 | `rstrip('\n\r')` removes the trailing run of newlines and carriage returns, and nothing else |
| Analysis.PrepareExample | analyze_levels_final.py:63 | `  12 wwsew\n` is read as `wwsew` |
| Analysis.PrepareAllAt | analyze_levels_final.py:58-63 | prepared line `i` is input line `i` with its number prefix and trailing newlines removed |
| Analysis.FlagsAt | analyze_levels_final.py:58-65 | flag `i` holds exactly when line `i` is past the three header lines and its prepared form passes `is_grid_line` |
| Analysis.TrailingRunSpec | analyze_levels_final.py:65-80 | the open level's height is the run of collected rows at the end, and it cannot be extended |
| Analysis.CountRunsSpec | analyze_levels_final.py:74-86 | the level count is the number of positions where a run of collected rows begins |
| Analysis.LongestRunSpec | analyze_levels_final.py:76-86 | the tallest level bounds every run of collected rows, and one run reaches it |
| Analysis.NoRunsIff | analyze_levels_final.py:74-86 | no level is found, and the height is 0, exactly when no row is collected |
| Analysis.FirstTrue | analyze_levels_final.py:76 | a collected row is preceded by a first collected row, where a level begins |
| Analysis.RunsExtend | analyze_levels_final.py:65-80 | how the open height, the level count and the tallest level change when one more line is read |
| Analysis.RunsInvRow | analyze_levels_final.py:65-66 | a collected row extends the open level |
| Analysis.RunsInvOther | analyze_levels_final.py:74-80 | any other line closes the open level, if there is one |
| Analysis.MaxWidthExtend | analyze_levels_final.py:68-73 | the running maximum width stays the largest width among collected rows |
| Analysis.MaxWidthSnoc | analyze_levels_final.py:68-73 | reading one more line raises the running maximum to that line's width only when the line is collected |
| Analysis.MaxWidthSpec | analyze_levels_final.py:68-73 | the running maximum is at least every collected row's width and is the width of some collected row unless it is 0 |
| Analysis.CleanedNarrower | analyze_levels_final.py:68-73 | the widest row after cleaning codes is never wider than the widest row before |
| Analysis.LoopInit | analyze_levels_final.py:50-54 | the counters start at zero, which is correct for no line read |
| Analysis.LoopStep | analyze_levels_final.py:58-80 | one iteration keeps the loop invariant: a header line changes nothing, a collected row extends the open level and the widths, any other line closes the open level |
| Analysis.LoopDone | analyze_levels_final.py:82-86 | closing the last level gives the level count and the tallest level of the whole file |
| Analysis.AnalyzeLevels | analyze_levels_final.py:45-93 | the level count is the number of maximal runs of collected rows after the three header lines; the height is the longest run; the two widths are the running maximum (`MaxWidth`, the largest collected row by `MaxWidthSpec`) before and after cleaning; cleaning never widens |

## Left out

- Drawing is not modelled: SVG elements, colours, shapes, the tile size, the viewBox and the `maxWidth` computation (game.js:110-114), and `updateResourceDisplay`. They affect only the page.
- `alert` and `console` output are left out. A completion alert is the `Event` that `Game.Move` returns.
- `fetch` is left out. `loadLevels` passes the fetched text to `parseLevels`, so `Game.NewGame` takes that text as a parameter. A failed fetch is left out: the game then stays empty.
- Event listeners and `preventDefault` are left out. `Game.Press` and `Game.Play` model the dispatch of the keydown handler.
- The Python script's file reading is left out: `Analysis.AnalyzeLevels` takes the lines `readlines` returns. So are the newline translation `open` does and `main`'s printing.
- `\d` in Python and `str.lower()` are modelled on ASCII only. Python's versions also accept other Unicode digits and case mappings, including ones that change a string's length. JavaScript's `\d` is ASCII, as modelled.
- Integers are unbounded. JavaScript's 2^53 limit on counters and Python's float in `len(line_chars) * 0.5` never matter for a level file: the comparison is exact for whole numbers, written as `2 * |common| < |chars|`.
- Game.LoadLevel: takes a `nat`. The code never passes a negative index; one would make `renderLevel` fail on an undefined level.
- `getTileAt` returns the first element carrying the coordinates. Each cell is drawn at most once, so a map models it.
- Strings are sequences of Unicode code points here, while JavaScript strings are UTF-16 code units. In game.js `row.length` and `row[x]` (game.js:117-119) count a character outside the Basic Multilingual Plane as two columns, and neither half is a tile symbol, so every later tile of that row sits one column further right than in `Board.Render`. The model counts one column per character, which agrees with game.js on rows without such characters.
- game.js calls the asynchronous `loadLevels()` without waiting for it and then `setupControls()` (game.js:16-17). A key pressed before the level text arrives moves the player over an empty grid and counts moves, and that position carries into a first level without an `s`. `Game.NewGame` assumes the text has arrived before the first key press.
