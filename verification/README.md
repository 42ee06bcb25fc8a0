# Minesweeper grid logic

A Dafny model of the game logic of the Minesweeper component in
`src/App.tsx`, taken apart from its React shell. The board is an 81-cell
sequence indexed `row * 9 + col`. Each cell holds a `meta` count (-1 for a
mine), a display text, and an `isOpened` flag that flagged cells share.
The component's `useState` values become one immutable `State` record.
Every handler is a pure function from state to state.

Modules:

- `Grid` (`grid.dfy`): the cell record and the component's row arithmetic
  (`getRowIndexFromCellIndex`, `isIndexInNeighbourRange`). It also holds a
  reference geometry in rows and columns (`Adjacent8`, `Adjacent4`) that
  the rest is proved against.
- `Generate` (`generate.dfy`): `genNewField` and `setNeighbourCellContent`.
  Mine placement comes first, then the eight guarded count steps around
  every mine, taken in the order they were drawn (the JavaScript `Set`
  keeps insertion order).
  A corrected generator stands beside the component's one (see Findings).
- `Reveal` (`reveal.dfy`): `markCellAsOpened`, `openCell`,
  `markCellAsOpenedIfEligible` and `openNeighbourOpenCells`. `MarkOpened`
  and `OpenCell` are plain functions. `OpenIfEligible` and `OpenNeighbours`
  call each other recursively, and their termination measure is the set of
  closed cells.
- `Game` (`game.dfy`): `newGameHander`, `fieldClickHandler`, `stopGame`,
  `terminateGame`, `toggleBombCell` and `checkForWictory`. It also holds
  the state invariant and a corrected click handler (see Findings).

Input the component takes from its environment becomes parameters:

- The ten randomly drawn mine positions become a list of ten distinct
  board indices.
- The clicked cell becomes an integer index.
- The shift key becomes a `Click` value (`Plain` or `ShiftClick`).

The component reads `field[index]` for a shift-click without checking the
index. Such a click, outside the board while a game is played, raises a
TypeError and changes no state. It is modelled as the outcome `Crashed`.

## Model

| member | source | states |
|---|---|---|
| Grid.NoWraparound | src/App.tsx:9-16 | The neighbour guard admits only board indices. With the sentinel -1 it admits every board index. With a board base it admits exactly the indices on the base's row, so a step left or right is admitted exactly when it does not wrap to another row. |
| Grid.FourNeighbours | src/App.tsx:139-144 | The four guarded calls from a board cell (above, left on the same row, right on the same row, below) reach exactly its orthogonal grid neighbours. |
| Generate.Bump | src/App.tsx:18-25 | A count step raises `meta` by one only on the targeted cell, and only if the guard admits it and it is not a mine. Mine cells and `isOpened` are untouched. A cell's text stays the decimal string of its count. |
| Generate.AroundMine | src/App.tsx:43-50 | The eight calls around a mine raise each non-mine cell by exactly one if some call reaches it and leave it unchanged otherwise. Mines are untouched. |
| Generate.HitsAround | src/App.tsx:43-50 | The eight calls target distinct cells, so one mine bumps a cell at most once. |
| Generate.Propagate | src/App.tsx:42-51 | After all mines' count steps, each non-mine count has grown by the number of mines that reach it. Mine cells and `isOpened` are unchanged, and texts stay consistent with counts. |
| Generate.PlaceMines | src/App.tsx:28-40 | The field before counting has 81 closed cells, each text consistent with its count. The mines are exactly the ten drawn positions, and every other cell has count 0. |
| Generate.TouchesAsWritten | src/App.tsx:43-50 | A mine's eight calls reach exactly its grid neighbours. The one exception: a mine at index 8 also reaches index 0. |
| Generate.ContactsBound | src/App.tsx:43-50 | Any cell is reached by at most eight distinct mines. |
| Generate.ContactsCount | src/App.tsx:42-51 | For distinct mines, the running count equals the size of the set of mines that reach the cell. |
| Generate.GenerateField | src/App.tsx:27-54 | A generated field has 81 closed cells. The mines are exactly at the ten drawn positions, and there are ten of them. Every non-mine count is in 0..8, and every text is the count's decimal string, or empty for 0 and for mines. |
| Generate.GeneratedCounts | src/App.tsx:42-51 | Every non-mine count equals the number of mines among the cell's grid neighbours. The exception is cell 0, which counts one more when index 8 is a mine. |
| Generate.CornerQuirk | src/App.tsx:43-45 | Take a draw with a mine at 8 and none on 0, 1, 9 or 10. The component gives cell 0 the count 1 although none of its grid neighbours is a mine. The corrected generator gives 0. |
| Generate.TouchesFixed | src/App.tsx:43-50 | With the corrected guard, a mine's eight calls reach exactly its grid neighbours. |
| Generate.GenerateFieldFixed | src/App.tsx:27-54 | The corrected generator keeps every field property of the component's generator. |
| Generate.GeneratedCountsFixed | src/App.tsx:42-51 | With the corrected generator, every non-mine count is exactly the number of mines among its grid neighbours. |
| Reveal.MarkOpened | src/App.tsx:111-114 | Marking opens the cell and shows `String(meta \|\| '')`, and no other cell changes. On a closed cell it removes exactly that cell from the set of closed cells, which is the step that makes the recursive fill terminate. On a closed non-mine it is a step of growth: the only change is a closed non-mine turned into its revealed form. |
| Reveal.OpenIfEligible | src/App.tsx:128-137 | The fill changes only closed non-mine cells, and each of those becomes revealed with its count shown. A guarded non-mine target ends up open. A refused, open (flagged) or mine target leaves the field unchanged. |
| Reveal.OpenNeighbours | src/App.tsx:139-144 | The four neighbour calls change only closed non-mine cells, revealing them with their counts. Termination follows because every recursive call first opens a closed cell. |
| Reveal.OpenCell | src/App.tsx:116-126 | The clicked cell is revealed. Every other cell is unchanged, or was a closed non-mine and is now revealed showing its count. |
| Reveal.EligibleFlood | src/App.tsx:128-137 | In a fill started by one cell, every newly opened zero has its orthogonal neighbours open or mines. Every other newly opened cell is next to a newly opened zero. |
| Reveal.NeighboursFlood | src/App.tsx:139-144 | After the four calls, every orthogonal neighbour of the centre is open or a mine. The fill is closed, and each newly opened cell is next to the centre or to a newly opened zero. |
| Reveal.OpenCellFlood | src/App.tsx:116-144 | Opening a closed non-mine cell never opens a mine and never touches an open or flagged cell. Newly opened cells show their counts. Newly opened zeros have all orthogonal non-mine neighbours open. Every newly opened cell other than the clicked one is next to a newly opened zero. |
| Game.NewGame | src/App.tsx:64-70 | A new game has a generated, all-closed field with the mines at the drawn positions. It starts with ten bombs left (the number of mines), 100 seconds, the game in play and no resolution. |
| Game.HandleClick | src/App.tsx:73-93 | Without a game in play a click changes nothing. The handler crashes exactly on a shift-click outside the field while a game is played. Every handled click keeps the state invariant. |
| Game.InitialInv | src/App.tsx:57-61 | The state before the first game satisfies the invariant and has no game in play. |
| Game.PlainClickIgnored | src/App.tsx:74-81 | A plain click outside the field or on an open (or flagged) cell changes nothing. |
| Game.PlainClickOnMine | src/App.tsx:84-109 | A plain click on a closed mine opens it with the bomb text and stops the game, with 0 seconds left and resolution 'Game over'. No other cell and not the bomb counter changes. |
| Game.PlainClickReveals | src/App.tsx:84-88 | A plain click on a closed non-mine changes only the field, and changes it as the flood fill does (the `Reveal.OpenCellFlood` properties). |
| Game.ResolvedIgnoresClicks | src/App.tsx:95-99 | Once a game is lost or won the game is no longer played, so every later click is ignored. |
| Game.Toggle | src/App.tsx:146-167 | A toggle flips `isOpened` and shows the flag or clears the text to match. It moves `bombsLeft` by -1 or +1 to match and keeps all other cells. It declares victory exactly when the new `bombsLeft` is 0 and ten mines carry the flag. A win stops the game with 0 seconds left. Without a win, the resolution, the play flag and the seconds stay as they were. |
| Game.TenFlaggedMines | src/App.tsx:160-163 | On a field with ten mines, ten flagged mines means every mine is flagged, and the converse holds too. |
| Game.ShiftClickVictory | src/App.tsx:155-167 | During play, a shift-click wins exactly when the bomb counter reaches 0 with every mine flagged. |
| Game.ToggleRevealedDrifts | src/App.tsx:146-152 | Start from a state whose bomb counter is ten minus the flags. A shift-click on a revealed cell closes it and clears its text. The counter then exceeds ten minus the flags by one. |
| Game.WrongFlagVictory | src/App.tsx:146-167 | Start from an accounted state with every mine flagged plus one wrong flag, so the counter is -1. A shift-click on a revealed cell declares victory, although the flags are not exactly the mines. |
| Game.HandleClickFixed | src/App.tsx:89-92 | The corrected handler ignores shift-clicks on revealed cells and otherwise behaves as the component's handler. It keeps the invariant and crashes in the same cases. |
| Game.NewGameAccounted | src/App.tsx:64-70 | A new game starts with the bomb counter equal to ten minus the number of flags. |
| Game.PlainClickKeepsFlags | src/App.tsx:84-109 | When only open cells carry a flag, a plain click on a closed cell leaves the bomb counter and the set of flagged cells unchanged, whether it loses on a mine or reveals. Afterwards still only open cells carry a flag. |
| Game.ShiftClickMovesFlag | src/App.tsx:146-152 | On a closed cell a shift-click adds that cell's flag and lowers the counter by one. On a flagged cell it removes the flag and raises the counter by one. Afterwards still only open cells carry a flag. |
| Game.FixedClickKeepsAccount | src/App.tsx:146-152 | With the corrected handler, every click keeps the bomb counter at ten minus the number of flags. Only open cells carry a flag. |
| Game.FixedVictoryExact | src/App.tsx:155-167 | With the corrected handler, a shift-click that is not ignored wins exactly when the flags sit on exactly the mines. |

## Left out

- React rendering and hooks (src/App.tsx:56-62, 188-214): the state values are fields of the `State` record.
- The random draw of mine positions (src/App.tsx:34-40): the positions are an input of ten distinct board indices. The retry on a repeated draw is therefore not modelled.
- The countdown timer effect and its logging (src/App.tsx:169-186): `secondsLeft` is only set by a new game (100) and by stopping (0). Timer scheduling and its captured-value behaviour are outside the grid logic. The code's timer never declares a loss when it reaches 0: it only clears the interval (src/App.tsx:177-179).
- DOM event decoding (src/App.tsx:76-80): the index and the click kind are direct inputs. A missing `data-index` (NaN) behaves like an index outside the board.
- Object aliasing from the shallow copies (src/App.tsx:104, 117, 147): modelled as value updates. Because the cell objects are shared, `checkForWictory` sees the toggled cell, so the model checks victory on the new field.
- The emoji texts: `Content` has the cases `Blank`, `Digits(n)`, `Flag` and `Bomb`.
- Reveal.OpenCellFlood: it states a local support property. Each newly opened cell other than the clicked one is next to a newly opened zero. It does not state full reachability from the clicked cell along a path of newly opened zeros, so it is weaker than "opens exactly the connected region and its border".
- Game.HandleClick: the model keeps the component's behaviour on the two points in Findings. The corrected definitions stand beside it and are proved separately.

## Findings

| source | as written | input that shows it | evidently intended | confidence | as-written member | corrected member |
|---|---|---|---|---|---|---|
| src/App.tsx:43-45 | For a mine at index 8 the base `index - 9` is -1. That is the "no row constraint" sentinel, and `abs(-1) / 9` is row 0 anyway. So the call for `index - 9 + 1` raises cell 0. | Any draw containing 8 but none of 0, 1, 9, 10: cell 0 gets count 1 with no mine next to it (`Generate.CornerQuirk`) | The diagonal cells above a mine are counted only if they lie on the row above it, using floor division and a "no row" marker separate from any index. `Generate.GeneratedCountsFixed` proves the counts are then exact. | high; not executed | Generate.GenerateField | Generate.GenerateFieldFixed |
| src/App.tsx:146-152 | `toggleBombCell` flips `isOpened` on any cell. A shift-click on a revealed number cell closes it again and raises `bombsLeft`, although no flag was removed. The counter then no longer equals ten minus the flags. With one such click, ten flagged mines plus one wrong flag bring the counter to 0, which is declared a victory. | A played state where a revealed cell without a flag is shift-clicked (`Game.ToggleRevealedDrifts`). With every mine flagged plus one wrong flag, that click wins (`Game.WrongFlagVictory`) | Shift-click only toggles closed or flagged cells. `Game.FixedClickKeepsAccount` and `Game.FixedVictoryExact` prove the counter stays ten minus the flags, and victory means the flags are exactly the mines. | high; not executed | Game.ToggleRevealedDrifts | Game.HandleClickFixed |
