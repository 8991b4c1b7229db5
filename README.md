# Arcade engines and relay helpers, modelled in Dafny

This project models the game engines of a browser arcade. Each engine lives in one React component, and the model covers seven of them:

- **2048 Fusion** (`games/Puzzle2048.tsx`): a 4×4 sliding-merge puzzle.
- **Void Sweeper** (`games/VoidSweeper.tsx`): a 10×10 mine field with 15 mines, neighbour counts and flood reveal.
- **Neon Snake** (`games/SnakeGame.tsx`): a snake on a 20×20 torus, with food and buffered steering.
- **Neural Match** (`games/MemoryMatch.tsx`): a 16-card memory game with timed match and mismatch resolution.
- **Reflex Test** (`games/ReflexTest.tsx`): a reaction timer with a random 2–5 s delay.
- **Core Clicker** (`games/ClickerHero.tsx`): an idle economy with clicks, ticks and upgrades.
- **Quantum TicTacToe** (`games/TicTacToe.tsx`): tic-tac-toe against a random opponent.

The model also covers the pure helpers of two other components:

- the relay page `components/Gateway.tsx`: its query history, its empty-query guard, its URL test, its grounding-source filter and its result renderer;
- the catalogue filter of `components/GamesList.tsx`.

## How the code is modelled

State that a component keeps across events becomes a `class`:

- every `useState` becomes a class field;
- every event handler, timer callback and effect body becomes a method with a `modifies this` clause.

Each method's `ensures` gives the whole new state. The state is stated either as a function of the old state, or case by case, following the handler's branches.

Loops in the source stay loops, with their invariants. This covers:

- the 2048 merge scan, padding, rotation and fullness check;
- mine planting, neighbour counting and the win scan;
- the food search and the empty-cell scan.

Recursion in the source stays recursion; the flood fill is an example.

Computations without state are functions, and the lemmas about them carry the properties.

Random choices, the clock and timers become parameters:

- a random pick is an index or a candidate list supplied by the caller;
- the clock is a `now` argument;
- a pending `setTimeout` callback is kept as a value in a `pending` field, and a separate method fires it.

With the timers kept as values, the model can show what a stale callback does to a replaced game.

`JsStrings` models the JavaScript string built-ins the helpers use: `indexOf`/`includes`, `startsWith`, `substring` (a slice), `replace`, `trim`, `split` and `toLowerCase`. The helpers never call `join`; `JoinLines` is there only as the inverse that `SplitJoin` proves `split` against. `Sequences` holds the subsequence relation the filters are stated with. `Wrappers` holds `Option`.

Where the code and its documentation disagree, the model follows the code:

- **2048 game over.** A 2048 game is over as soon as the grid is full after a move's spawn (`games/Puzzle2048.tsx:101-107`). The game does not check for a merge that is still possible, and `FullGridCanStillMove` shows a full grid that can still slide.
- **2048 key bindings.** The arrow keys map to rotation names that do not match their arrows (`games/Puzzle2048.tsx:113-116`):
  - ArrowUp slides rows left;
  - ArrowDown slides rows right;
  - ArrowLeft slides columns down;
  - ArrowRight slides columns up.
  The three `…Slides…` lemmas state this.
- **Snake food.** New food is checked against the snake before the move, so it may land on the new head (`FoodMayLandOnNewHead`).
- **Snake steering.** The guard against reversing compares the key with the current direction, not with the last direction moved in. Two quick key presses therefore reverse the snake between ticks (`TwoKeysReverse`).
- **TicTacToe opponent.** The opponent effect tests the `winner` state from the previous render. So O still moves after X has completed a line, and O can overturn X's win (`OverturnXWins`, `OverturnOWins`).
- **TicTacToe timers.** RE-INITIALIZE appears as soon as X has won, while O's timeout may still be pending (`games/TicTacToe.tsx:77-84`). The reset does not cancel that timeout, and the cells are enabled again (`games/TicTacToe.tsx:68`). So after the next click, the stale timeout installs the old board with an O on it over the new game (`StaleOpponentAfterReset`).
- **Memory timers.** `initGame` does not cancel a pending timeout either, and a stale one would write the old deck back (`StaleResolutionRestoresOldDeck`). On this page that cannot happen: REBOOT is shown only when `matches === 8` (`games/MemoryMatch.tsx:87-92`), and by then nothing is pending (`WonIffAllMatched`). Only the first deal on mount calls `initGame` otherwise.

## Model

| member | source | states |
|---|---|---|
| Puzzle2048.Compress | games/Puzzle2048.tsx:49 | dropping the empty cells leaves a row no longer than before with no zero in it |
| Puzzle2048.Merged | games/Puzzle2048.tsx:51-57 | the merge pass keeps the row's length |
| Puzzle2048.Pad | games/Puzzle2048.tsx:59 | padding a short row gives exactly the target length and leaves a long row as it is |
| Puzzle2048.SlidRow | games/Puzzle2048.tsx:48-60 | a slid row of at most four cells has exactly four cells |
| Puzzle2048.Slide | games/Puzzle2048.tsx:48-61 | the `slide` routine returns the slid row and the points its merges earn |
| Puzzle2048.MergeScan | games/Puzzle2048.tsx:51-57 | the left-to-right loop over a compacted row merges each equal pair once and adds the merged value to the score |
| Puzzle2048.PadRow | games/Puzzle2048.tsx:59 | the padding loop appends zeros up to four cells |
| Puzzle2048.CompressSum | games/Puzzle2048.tsx:49 | dropping empty cells keeps the sum of the tiles |
| Puzzle2048.MergedSum | games/Puzzle2048.tsx:51-57 | merging keeps the sum of the tiles: a merged tile is worth its two halves |
| Puzzle2048.SlidePreservesSum | games/Puzzle2048.tsx:48-60 | a slide neither creates nor destroys value |
| Puzzle2048.CompactMergedIsPairs | games/Puzzle2048.tsx:51-58 | the merge scan, once compacted, equals a reference that fuses equal neighbours pairwise from the left |
| Puzzle2048.SlideIsReferenceMove | games/Puzzle2048.tsx:48-60 | a slide is: drop the gaps, fuse pairs from the left, pad with zeros to four |
| Puzzle2048.SlideShape | games/Puzzle2048.tsx:48-60 | a slid row has four cells, every cell after an empty one is empty, and it holds no more tiles than before |
| Puzzle2048.ScoreZeroIffNoMerge | games/Puzzle2048.tsx:51-57 | a row earns nothing exactly when no pair fuses, and earns something exactly when the tile count drops |
| Puzzle2048.NoCascadeExamples | games/Puzzle2048.tsx:51-59 | `[2,2,2,2]` slides to `[4,4,0,0]` for 8 points: a merged tile does not merge again in the same move |
| Puzzle2048.NoCascadeAfterMerge | games/Puzzle2048.tsx:51-59 | `[4,4,8,0]` slides to `[8,8,0,0]`: the new 8 does not fuse with the old 8 |
| Puzzle2048.SlideKeepsTiles | games/Puzzle2048.tsx:48-60 | if every cell is empty or a power of two from 2 up, so is every cell after the slide |
| Puzzle2048.Rotated | games/Puzzle2048.tsx:63-71 | a quarter turn sends cell (r, c) to (c, 3−r) |
| Puzzle2048.RotateGrid | games/Puzzle2048.tsx:63-71 | the nested loop builds exactly the quarter-turned grid |
| Puzzle2048.FourTurnsIdentity | games/Puzzle2048.tsx:63-71 | four quarter turns give the grid back |
| Puzzle2048.RotateNAdd | games/Puzzle2048.tsx:82-94 | rotating a times, then b times, is rotating a+b times |
| Puzzle2048.RestoreOrientation | games/Puzzle2048.tsx:82-94 | the `(4 − k) % 4` turns after the slide undo the k turns before it |
| Puzzle2048.SlideGridSum | games/Puzzle2048.tsx:84-89 | sliding every row keeps each row's sum |
| Puzzle2048.RotationCount | games/Puzzle2048.tsx:77-80 | each direction is a number of quarter turns below four |
| Puzzle2048.MovedTiles | games/Puzzle2048.tsx:73-94 | a move in any direction keeps every cell empty or a power of two from 2 up |
| Puzzle2048.LeftSlidesRows | games/Puzzle2048.tsx:77-94 | the `LEFT` move slides each row towards column 0 |
| Puzzle2048.UpSlidesColumnsDown | games/Puzzle2048.tsx:113-116 | ArrowLeft slides every column towards the bottom row |
| Puzzle2048.RightSlidesRowsRight | games/Puzzle2048.tsx:113-116 | ArrowDown slides every row towards column 3 |
| Puzzle2048.DownSlidesColumnsUp | games/Puzzle2048.tsx:113-116 | ArrowRight slides every column towards the top row |
| Puzzle2048.EmptyPrefixExact | games/Puzzle2048.tsx:17-22 | the scan lists each empty cell, only empty cells, none twice |
| Puzzle2048.EmptyCellsExact | games/Puzzle2048.tsx:17-23 | the list holds exactly the empty cells, and it is empty exactly when the grid is full |
| Puzzle2048.AddRandomTile | games/Puzzle2048.tsx:16-27 | a full grid comes back unchanged; otherwise exactly the picked empty cell becomes 2 or 4 and every other cell keeps its value |
| Puzzle2048.SpawnedTiles | games/Puzzle2048.tsx:16-27 | a spawned 2 or 4 keeps every cell empty or a power of two from 2 up |
| Puzzle2048.FullGridCanStillMove | games/Puzzle2048.tsx:101-107 | a full grid with an equal pair at the start of a row still changes under a left move, so fullness is not the end of play |
| Puzzle2048.SlideUnmergeable | games/Puzzle2048.tsx:48-60 | a full row with no equal neighbours does not change when slid |
| Puzzle2048.SpawnTwo | games/Puzzle2048.tsx:36-39 | two tiles spawned on the empty grid give the initial grid, all tiles powers of two |
| Puzzle2048.SlideInDirection | games/Puzzle2048.tsx:82-94 | rotate, slide every row and turn back: the result is the move and its score |
| Puzzle2048.SlideRows | games/Puzzle2048.tsx:84-89 | the row loop slides every row and adds up the rows' scores |
| Puzzle2048.CheckFull | games/Puzzle2048.tsx:101-107 | the scan for an empty cell answers exactly whether the grid is full |
| Puzzle2048.InitialPicksValid | games/Puzzle2048.tsx:36-39 | both spawns of a new game find an empty cell: 16, then 15 |
| Puzzle2048.InitialGridTiles | games/Puzzle2048.tsx:30-42 | a new game's grid holds only empty cells and powers of two from 2 up |
| Puzzle2048.Game.constructor | games/Puzzle2048.tsx:30-46 | a new game has the initial grid, score 0, and is not over |
| Puzzle2048.Game.InitializeGame | games/Puzzle2048.tsx:30-42 | restarting gives the initial grid, score 0, and a game not over |
| Puzzle2048.Game.Move | games/Puzzle2048.tsx:73-109 | a move does nothing once the game is over or when the grid would not change; otherwise a tile spawns on the moved grid, the score rises by the move's points, and the game is over exactly when the grid is full |
| VoidSweeper.BlankBoard | games/VoidSweeper.tsx:20-27 | the blank board is 10×10 |
| VoidSweeper.BlankHasNoMine | games/VoidSweeper.tsx:20-27 | the blank board has no mine, no count, nothing revealed or flagged |
| VoidSweeper.PartialCount | games/VoidSweeper.tsx:44-53 | after k of the nine offsets, at most k mines are counted |
| VoidSweeper.PartialCountZero | games/VoidSweeper.tsx:44-53 | the count over the first k offsets is zero exactly when none of them holds a mine |
| VoidSweeper.ZeroCountIffNoAdjacentMine | games/VoidSweeper.tsx:40-57 | a cell's count is zero exactly when no in-bounds neighbour is a mine |
| VoidSweeper.CountAtMostEight | games/VoidSweeper.tsx:40-57 | a safe cell counts at most eight mines |
| VoidSweeper.PlantMines | games/VoidSweeper.tsx:29-38 | the rejection loop plants exactly the first 15 distinct draws as mines and stops at the draw that completes them |
| VoidSweeper.PlantOne | games/VoidSweeper.tsx:34-36 | planting on a cell without a mine adds exactly that cell to the mine set |
| VoidSweeper.CountNeighbors | games/VoidSweeper.tsx:40-57 | every safe cell gets the number of mines among its neighbours, and mines and mine cells are left as they were |
| VoidSweeper.CountAround | games/VoidSweeper.tsx:44-54 | the 3×3 scan counts the mines in the in-bounds neighbours |
| VoidSweeper.ClosedTrans | games/VoidSweeper.tsx:79-89 | growing a reveal twice, closed each time, is one closed growth |
| VoidSweeper.FloodFill | games/VoidSweeper.tsx:79-89 | an out-of-bounds, revealed or flagged cell stops the flood; otherwise the cell opens, only hidden unflagged safe cells open, and every neighbour of an opened zero is opened or flagged |
| VoidSweeper.FloodNeighbours | games/VoidSweeper.tsx:82-88 | the flood from a zero cell covers all its in-bounds neighbours |
| VoidSweeper.FloodRow | games/VoidSweeper.tsx:84-86 | after one offset row, the neighbours in that row and above are covered |
| VoidSweeper.FloodStep | games/VoidSweeper.tsx:85 | one recursive call covers its target and keeps what was covered |
| VoidSweeper.CheckWin | games/VoidSweeper.tsx:94-96 | the win scan says yes exactly when every safe cell is revealed |
| VoidSweeper.GrowsKeepsExclusive | games/VoidSweeper.tsx:79-89 | the flood never reveals a flagged cell, so no cell is both |
| VoidSweeper.GrowsKeepsNoMineRevealed | games/VoidSweeper.tsx:79-89 | the flood never reveals a mine |
| VoidSweeper.NothingRevealed | games/VoidSweeper.tsx:19-60 | a fresh board has no cell both flagged and revealed, and no mine revealed |
| VoidSweeper.Game.constructor | games/VoidSweeper.tsx:19-64 | a new game is playing on a board with 15 mines, correct counts, nothing revealed or flagged |
| VoidSweeper.Game.CreateGrid | games/VoidSweeper.tsx:19-60 | a restart plants a prefix of the draws as 15 mines, with correct counts, nothing revealed or flagged, and play resumes |
| VoidSweeper.Game.RevealCell | games/VoidSweeper.tsx:66-97 | nothing happens when the game is over or the cell is revealed or flagged; a mine reveals that one cell and loses; otherwise the flood opens the cell, opens only hidden unflagged safe cells and leaves no newly opened zero with a neighbour still hidden and unflagged, and the game is won exactly when every safe cell is open |
| VoidSweeper.Game.ToggleFlag | games/VoidSweeper.tsx:99-105 | on a hidden cell while playing the flag flips and nothing else changes; otherwise nothing changes |
| SnakeGame.JsRem | games/SnakeGame.tsx:37-38 | JavaScript `%` keeps the dividend's sign and stays below the divisor in size |
| SnakeGame.NextHead | games/SnakeGame.tsx:36-39 | a step from a cell in the grid stays in the grid |
| SnakeGame.WrapAround | games/SnakeGame.tsx:36-39 | leaving any edge re-enters at the opposite edge |
| SnakeGame.InteriorStep | games/SnakeGame.tsx:36-39 | a step that stays inside the grid is plain addition |
| SnakeGame.FirstFree | games/SnakeGame.tsx:17-30 | the chosen food is a candidate that the snake does not cover |
| SnakeGame.GenerateFood | games/SnakeGame.tsx:17-30 | the retry loop returns the first candidate that the snake does not cover |
| SnakeGame.SteerNeverReverses | games/SnakeGame.tsx:61-75 | a key never sets the direction opposite to the current one |
| SnakeGame.TwoKeysReverse | games/SnakeGame.tsx:61-84 | two keys between ticks turn the snake onto its own neck |
| SnakeGame.InitialSnakeShape | games/SnakeGame.tsx:4-6 | the starting snake is in the grid, without repeats, and each segment is one step from the next |
| SnakeGame.GrowKeepsShape | games/SnakeGame.tsx:42-57 | moving or growing onto a free cell keeps the snake connected, in the grid and without repeats |
| SnakeGame.TailCellIsFatal | games/SnakeGame.tsx:42-45 | moving onto the cell the tail is about to leave still ends the game |
| SnakeGame.FoodMayLandOnNewHead | games/SnakeGame.tsx:47-52 | the food picked after eating may lie under the new head |
| SnakeGame.Game.constructor | games/SnakeGame.tsx:9-14 | the game starts with the initial snake, food and direction, score 0, not over, not paused |
| SnakeGame.Game.MoveSnake | games/SnakeGame.tsx:32-59 | over or paused: nothing changes; a head on the body ends the game; a head on the food grows the snake, scores 10 and places new food; otherwise the snake moves one cell |
| SnakeGame.Game.KeyDown | games/SnakeGame.tsx:61-84 | arrows steer without reversing and space toggles the pause; nothing else changes |
| SnakeGame.Game.PressButton | games/SnakeGame.tsx:149-153 | an on-screen button steers like its arrow key and changes nothing else |
| SnakeGame.Game.ResetGame | games/SnakeGame.tsx:93-100 | a reset restores the initial snake, food, direction, score and flags |
| MemoryMatch.IconsDistinct | games/MemoryMatch.tsx:5 | the eight icons are different |
| MemoryMatch.PairDeckCounts | games/MemoryMatch.tsx:14 | the doubled icon list holds each icon exactly twice |
| MemoryMatch.DealtDeck | games/MemoryMatch.tsx:13-21 | a dealt deck has 16 cards in the shuffled order, each icon twice, ids 0–15, all face down and unmatched |
| MemoryMatch.ScheduledOutcome | games/MemoryMatch.tsx:37-57 | once the timer of a second flip fires, equal icons leave both cards matched, different icons turn both face down, and every other card is as the flip saw it |
| MemoryMatch.Applied | games/MemoryMatch.tsx:41-56 | a firing timer changes only its two cards: a match marks both matched, a mismatch turns both face down; icons and ids stay |
| MemoryMatch.DealtInv | games/MemoryMatch.tsx:13-21 | a fresh deal satisfies the game invariant with nothing selected or pending |
| MemoryMatch.FlipKeepsInv | games/MemoryMatch.tsx:27-39 | an accepted flip keeps the invariant and schedules a timer exactly on the second card |
| MemoryMatch.ResolvedCount | games/MemoryMatch.tsx:40-57 | a resolved match adds two matched cards; a mismatch adds none |
| MemoryMatch.ResolvedClosed | games/MemoryMatch.tsx:40-57 | after a resolution no card is face up without being matched |
| MemoryMatch.ResolveKeepsInv | games/MemoryMatch.tsx:40-57 | firing the pending timer keeps the invariant and counts a pair when it matched |
| MemoryMatch.WonIffAllMatched | games/MemoryMatch.tsx:87 | eight pairs found means every card is matched, and then nothing is selected or pending |
| MemoryMatch.StaleResolutionRestoresOldDeck | games/MemoryMatch.tsx:41-56 | a timer from before a re-deal writes the previous layout over the new one |
| MemoryMatch.Game.constructor | games/MemoryMatch.tsx:13-25 | a new game deals the deck with no selection, no moves, no matches, no timer |
| MemoryMatch.Game.InitGame | games/MemoryMatch.tsx:13-21 | a re-deal resets deck and counters but leaves any pending timer in place; with nothing pending, which is the only case the page reaches, the game is valid |
| MemoryMatch.Game.HandleFlip | games/MemoryMatch.tsx:27-59 | with two cards open or the card already up or matched nothing changes; otherwise the card turns up, and a second card counts a move and schedules its resolution |
| MemoryMatch.Game.Resolve | games/MemoryMatch.tsx:40-57 | a fired timer writes its resolved deck, clears the selection, counts a match and leaves the other timers |
| ReflexTest.TransitionsKeepInv | games/ReflexTest.tsx:11-32 | every transition keeps the invariant: a timer is armed exactly while waiting, and a reaction time is recorded exactly in the result state |
| ReflexTest.StartArmsTimer | games/ReflexTest.tsx:11-19 | starting waits, clears the reaction time and arms the timer |
| ReflexTest.TriggerRestarts | games/ReflexTest.tsx:29-31 | the trigger in idle, result or early restarts the test |
| ReflexTest.TriggerOutcomes | games/ReflexTest.tsx:21-28 | the trigger while waiting cancels the timer and goes early; when ready it records the elapsed time as the result |
| ReflexTest.EarlyTriggerNeverScores | games/ReflexTest.tsx:11-24 | a trigger straight after a start lands in early with no time recorded |
| ReflexTest.FullRound | games/ReflexTest.tsx:11-28 | start, fire, trigger gives a result whose time is measured from the ready moment, at least two seconds after the start |
| ReflexTest.UnmountDisarms | games/ReflexTest.tsx:34-38 | unmounting clears the timer and nothing else |
| ReflexTest.VerdictOf | games/ReflexTest.tsx:84-88 | below 200 ms is peak, 200–299 ms within limits, 300 ms or more latency |
| ReflexTest.Reflex.constructor | games/ReflexTest.tsx:6-9 | the test starts idle, with no time and no timer |
| ReflexTest.Reflex.StartTest | games/ReflexTest.tsx:11-19 | `startTest` moves to waiting and arms the timer |
| ReflexTest.Reflex.TimerFires | games/ReflexTest.tsx:15-18 | the timer callback moves to ready and records the ready moment |
| ReflexTest.Reflex.HandleTrigger | games/ReflexTest.tsx:21-32 | `handleTrigger` follows the three cases of the state |
| ReflexTest.Reflex.Unmount | games/ReflexTest.tsx:34-38 | the cleanup clears the timer |
| ClickerHero.FindIndex | games/ClickerHero.tsx:24 | `find` returns the first entry with the id, or nothing when no entry has it |
| ClickerHero.PurchasedIsOneUpdate | games/ClickerHero.tsx:29-31 | with unique ids a purchase updates exactly one entry |
| ClickerHero.TotalRateUpdate | games/ClickerHero.tsx:28 | changing one entry changes the total rate by that entry's difference |
| ClickerHero.CatalogFacts | games/ClickerHero.tsx:6-14 | the catalogue has unique ids and nothing owned |
| ClickerHero.PurchaseKeepsInv | games/ClickerHero.tsx:23-31 | a purchase leaves data non-negative, keeps the rate equal to the owned upgrades' sum, and no cost drops |
| ClickerHero.Clicker.constructor | games/ClickerHero.tsx:6-14 | the game starts with no data, no rate and the catalogue |
| ClickerHero.Clicker.Click | games/ClickerHero.tsx:44 | a click adds the click power to data and changes nothing else |
| ClickerHero.Clicker.Tick | games/ClickerHero.tsx:16-21 | each tick adds a tenth of the rate to data and changes nothing else |
| ClickerHero.Clicker.HandleUpgrade | games/ClickerHero.tsx:23-32 | an unknown or unaffordable upgrade changes nothing; otherwise its cost is paid, the rate rises by its rate, its count rises and its cost scales |
| TicTacToe.FirstComplete | games/TicTacToe.tsx:16-20 | the search finds the first complete line from k on, or none |
| TicTacToe.CalculateWinner | games/TicTacToe.tsx:10-22 | a win exactly when some line is complete, with the mark of the first one; a draw exactly when no line is complete and no cell is empty; no result otherwise |
| TicTacToe.TopRowWins | games/TicTacToe.tsx:11-18 | three X in the top row win for X |
| TicTacToe.EmptyFrom | games/TicTacToe.tsx:34 | the list holds exactly the empty cells, in increasing order |
| TicTacToe.HasEmptyIff | games/TicTacToe.tsx:34-35 | the opponent has a cell to choose exactly when one is empty |
| TicTacToe.OpponentPlaced | games/TicTacToe.tsx:36-41 | the opponent puts O in the chosen empty cell and leaves the others |
| TicTacToe.PlaceCounts | games/TicTacToe.tsx:24-41 | placing a mark adds one of that mark and leaves the other counts |
| TicTacToe.ClickKeepsInv | games/TicTacToe.tsx:24-49 | X's move followed by both effects keeps the invariant: O's turn, one more X, a timer exactly when a cell is left |
| TicTacToe.OpponentKeepsInv | games/TicTacToe.tsx:32-49 | O's delayed move keeps the invariant and hands the turn back |
| TicTacToe.CountsAlternate | games/TicTacToe.tsx:24-41 | X always has as many marks as O or one more |
| TicTacToe.OverturnStart | games/TicTacToe.tsx:24-49 | the scenario's position is a reachable X-to-move board |
| TicTacToe.OverturnXWins | games/TicTacToe.tsx:24-49 | X completes the bottom row, and the opponent still finds two empty cells |
| TicTacToe.OverturnOWins | games/TicTacToe.tsx:10-22 | after O fills the middle row the board reads as O's win, since that line is tested first |
| TicTacToe.Game.constructor | games/TicTacToe.tsx:6-8 | empty board, X to move, no result, no timer |
| TicTacToe.Game.HandleClick | games/TicTacToe.tsx:24-49 | an occupied cell or a decided game changes nothing; otherwise X goes there, O's turn begins, the result is recomputed and a timer is added behind any older ones when a cell is left; the invariant is kept whenever it held, and the result always matches the board, even with stale timers pending |
| TicTacToe.Game.FireOpponent | games/TicTacToe.tsx:36-49 | a fired timer places O on its captured board, gives X the turn and recomputes the result |
| TicTacToe.Game.Reset | games/TicTacToe.tsx:51-55 | a reset clears the board and result but leaves pending timers |
| TicTacToe.StaleMoveTakesCellFive | games/TicTacToe.tsx:36-41 | on the board X has just won, the opponent's second choice is cell 5, and that reads as a win for O |
| TicTacToe.StaleOpponentAfterReset | games/TicTacToe.tsx:24-84 | reset while O's timeout for the won game is pending, then one click: the stale timeout installs the old board with O's win over the new game, and the new game's timeout is still queued |
| Gateway.WithoutQuery | components/Gateway.tsx:54 | the filter keeps exactly the entries for other queries |
| Gateway.WithoutQueryCounts | components/Gateway.tsx:54 | every entry for another query is kept as often as it occurs, and none for the query survives |
| Gateway.WithoutQueryIsSubsequence | components/Gateway.tsx:54 | the kept entries keep their order |
| Gateway.WithoutQueryDistinct | components/Gateway.tsx:54 | filtering keeps a history free of repeats |
| Gateway.SaveToHistoryShape | components/Gateway.tsx:52-57 | the saved query comes first with its time, then the older entries for other queries, at most ten in all |
| Gateway.SaveToHistoryRest | components/Gateway.tsx:54 | the query appears only once, and the older entries keep their order |
| Gateway.SaveToHistoryDistinct | components/Gateway.tsx:52-57 | saving keeps a history without repeated queries |
| Gateway.TargetQuery | components/Gateway.tsx:61-62 | the query used is the manual one if non-empty, else the address bar; nothing happens exactly when it is only white space |
| Gateway.IsUrlIff | components/Gateway.tsx:72 | a query is a URL exactly when it has a dot and no space |
| Gateway.PromptFor | components/Gateway.tsx:72-80 | a URL asks for a rendered packet and anything else for a lookup, both about the query |
| Gateway.Sources | components/Gateway.tsx:95-101 | the sources are exactly the chunks' web records with a non-empty uri |
| Gateway.SourcesInOrder | components/Gateway.tsx:97-99 | the sources keep the chunks' order |
| Gateway.SourcesCounts | components/Gateway.tsx:97-99 | a record is listed once for every chunk carrying it with a non-empty uri, so repeated sources stay repeated; with the order lemma this fixes the list exactly |
| Gateway.ClassifyMarkers | components/Gateway.tsx:251-256 | a heading, subheading or list line loses exactly its marker, and any other line is a paragraph as written |
| Gateway.RenderLines | components/Gateway.tsx:251-256 | rendering goes line by line: a text without a break is one block, and a first line and a break render as that line's block followed by the rest |
| JsStrings.IndexOf | components/Gateway.tsx:72 | `indexOf` finds the first occurrence at or after the start, or reports none |
| JsStrings.IncludesIff | components/Gateway.tsx:72 | `includes` is true exactly when the pattern occurs somewhere |
| JsStrings.IncludesEmpty | components/GamesList.tsx:45-46 | every string includes the empty string |
| JsStrings.ReplacePrefix | components/Gateway.tsx:252-253 | replacing a leading marker by nothing drops that marker |
| JsStrings.TrimStart | components/Gateway.tsx:62 | trimming the front removes exactly the leading white space |
| JsStrings.TrimEnd | components/Gateway.tsx:62 | trimming the back removes exactly the trailing white space |
| JsStrings.TrimStartEmptyIff | components/Gateway.tsx:62 | trimming the front leaves nothing exactly when all is white space |
| JsStrings.TrimEmptyIff | components/Gateway.tsx:62 | `trim` gives the empty string exactly when the text is all white space |
| JsStrings.SplitLines | components/Gateway.tsx:251 | splitting at line breaks gives at least one piece, none containing a break |
| JsStrings.NoBreak | components/Gateway.tsx:251 | a text without a line break splits into itself alone |
| JsStrings.FirstBreak | components/Gateway.tsx:251 | the first piece of a split ends at the first line break |
| JsStrings.SplitJoin | components/Gateway.tsx:251 | joining the pieces with line breaks gives the text back |
| JsStrings.ToLower | components/GamesList.tsx:45-46 | the result has the same length and no capital letter; each capital becomes its small letter and every other character is kept |
| JsStrings.LowerIdempotent | components/GamesList.tsx:45-46 | lowering twice is lowering once |
| GamesList.Filtered | components/GamesList.tsx:43-47 | a game is listed exactly when it is in the catalogue, in the chosen category (or `All`), and its name or category contains the search term, ignoring case |
| GamesList.FilteredIsSubsequence | components/GamesList.tsx:43-47 | the listed games keep catalogue order |
| GamesList.CategoryTest | components/GamesList.tsx:44 | with `All` only the search applies; otherwise every listed game has the chosen category |
| GamesList.EmptyTermMatches | components/GamesList.tsx:45-46 | the empty search matches every game |
| GamesList.EmptySearchKeepsAll | components/GamesList.tsx:43-47 | the empty search with `All` lists the whole catalogue in order |
| GamesList.CaseInsensitive | components/GamesList.tsx:45-46 | a search term and its lower-case form list the same games |
| GamesList.SnakeByName | components/GamesList.tsx:21-47 | searching `SNAKE` finds Neon Snake by its name |

## Left out

- Random choices are parameters:
  - the shuffled deck is any arrangement of the sixteen cards;
  - the reflex delay is any value at least 2000 and below 5000;
  - the opponent's cell, the spawned tile's cell and its 2-or-4 value are picks supplied by the caller;
  - the food and mine draws are candidate sequences.
- SnakeGame.GenerateFood: requires a candidate that the snake does not cover. The source's `while` loop never ends when no cell is free.
- VoidSweeper.PlantMines: requires the draws to hold at least 15 distinct in-bounds cells. The source's rejection loop never ends on fewer.
- The clock is a parameter. `Date.now()` is a `now` argument, the reflex times are integers, and the armed timeout is a `real` deadline.
- Timers and effects are methods that the caller runs in the order React would:
  - intervals, `setTimeout` and `clearTimeout` are modelled this way, together with the effect scheduling;
  - the TicTacToe opponent's 500 ms delay and the memory game's 600 ms and 1000 ms delays are not modelled, only the order of events;
  - the snake's 150 ms interval is left out as well.
- ClickerHero.HandleUpgrade: the new cost `Math.floor(cost * 1.15)` is a supplied value. Its contract bounds it between the old cost and the exact `cost * 115 / 100`, which is weaker than the double-precision result.
- ClickerHero.Clicker.Tick: data is a `real`, so the binary rounding of `dps / 10` is not modelled.
- VoidSweeper.FloodFill: states that the reveal grows and is closed: every neighbour of an opened zero is open or flagged. It does not state that the region is the smallest such set.
- VoidSweeper.Game.RevealCell: its flood branch carries the same weaker statement as FloodFill. It does not state that only the clicked cell's region opens.
- MemoryMatch.Game.InitGame: stated as valid only when no timer is pending. The source does not cancel a pending timer, and the model keeps that flaw, but the page calls `initGame` only on mount and from REBOOT, and in both cases nothing is pending.
- TicTacToe.Game.Reset: stated as valid only when no timer is pending. Here a pending timer is reachable, so after such a reset only `Consistent` is promised, and `StaleOpponentAfterReset` shows the outcome.
- MemoryMatch.Game.Resolve: preserves validity only when the game was valid before.
- TicTacToe.Game.FireOpponent: preserves validity only when the game was valid before.
- TicTacToe.Game.HandleClick: requires X to move. The source disables the buttons on O's turn, so a click then cannot happen. It also requires a nine-cell board whose `winner` matches it, which every method keeps.
- ReflexTest.Reflex.StartTest: the source never calls `startTest` while it is waiting, so the model lets the new timer replace the old one.
- JsStrings.ToLower: lowers ASCII letters only. The full Unicode case mapping of `toLowerCase` is not modelled.
- The 2048 change test compares serialised grids; the model compares the grids directly, which is the same for grids of numbers.
- The first turn-back loop of the 2048 move (`games/Puzzle2048.tsx:91`) writes a variable that is never read again, so it is not modelled.
- The mine handlers copy the rows (`games/VoidSweeper.tsx:69`, `:102`) but not the cell objects. They then change those cells in place, so the earlier grid sees the change too.
- The memory handlers do the same with the card objects (`games/MemoryMatch.tsx:30-31`, `:42-44`, `:51-53`). The model works on values, so none of this aliasing is captured; every earlier state stays as it was.
- Presentation is not modelled: JSX, CSS classes, tile colours (`getTileStyles`), icons and banner text.
- From the relay page, the following are not modelled:
  - the calls to the generative model;
  - the prompt text and system instruction;
  - the provider toggle;
  - the fetch check and clipboard;
  - `localStorage`, `process.env` and `scrollIntoView`.
- The shell components `App.tsx`, `Navbar.tsx`, `Dashboard.tsx`, `About.tsx` and `index.tsx` are not part of this model.
