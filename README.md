# Mine-sweeper and palabrito game engines, modelled in Dafny

This project models the two game engines of the repository. Each is a parent
state machine that owns a grid of per-square state machines.

- **Mine-sweeper** (`app/helpers/utils.ts`, `app/routes/index.tsx`,
  `app/components/Cell.tsx`).
  - A 6-by-6 board holds 7 mines, placed by rejection sampling.
  - Every cell is an actor. Its states are unrevealed, flagged and revealed.
  - The game machine reacts to the cells' messages:
    - flood reveal from a 0 (`REVEAL_EMPTIES`);
    - unconditional chord reveal from a revealed cell (`REVEAL_NEIGHBORS`);
    - explosion on a mine (`EXPLODE`);
    - the win check on every exit from unrevealed (`UNREVEAL`).
- **Palabrito** (`app/routes/palabrito.jsx`,
  `app/components/palabrito/LetterInput.js`).
  - A 6-by-5 grid of letter actors, one row per try.
  - Submitting a row starts a lookup of the typed word.
  - The lookup's answer gives won, lost, the next row, or idle.

## How the model is built

- **Actors.** A cell or letter actor is a datatype snapshot:
  coordinates, value and state.
  - `CellMachine.Receive` and `LetterMachine.Receive` are the machines'
    transition tables. Each gives the actor after one event and the
    messages it sends to its parent, in xstate's order: exit actions, then
    transition actions, then entry actions.
  - The owning game is a `class`. Its `cells` or `letters` field holds
    the actors' current states, and its methods update that field one actor
    at a time (`Minesweeper.Game.SendToCell`, `Palabrito.Game.Input`).
- **Mine-sweeper delivery.** A message the game handles may make it send
  events to other cells, and those cells may answer with more messages.
  - The model delivers these messages through a first-in first-out
    worklist, each message run to completion.
  - `WIN`, which the game sends to itself, goes to the back of the same
    worklist.
  - `Minesweeper.Step` and `Minesweeper.Run` specify one message and the
    whole cascade. The imperative `Game.Handle` and `Game.Drain` are proved
    equal to them.
  - The theorems about flood, chord, explosion and the win are proved
    about `Run`.
- **Palabrito delivery.** The game's actions send events to letters
  directly. `Game.ShowRowResults` and `Game.MoveToNextRow` are the loops of
  `showRowResults` and `moveToNextRow`, proved against the
  specification functions `ShowResults` and `Activated`.
- **Outside inputs.**
  - **Random draws:** `Math.random` becomes an oracle sequence of
    in-range draws (`draws`).
  - **Network answers:** the target word and the "is it a word" answer
    are parameters of the methods that receive them
    (`Palabrito.Game.InitialWordArrived` and `Palabrito.Game.LookupDone`).

Notes on the source:

- **Chord reveal.** It sends `REVEAL` to every neighbour without counting
  flags (app/components/Cell.tsx:55-61, app/routes/index.tsx:125-134).
- **No sub-states or presets.** There is no press/release sub-state and no
  difficulty preset.
- **Mine-placement bound.** Placement can finish whenever the number of
  mines is at most rows × cols.

## Model

| member | source | states |
|---|---|---|
| Utils.IsInLimits | app/helpers/utils.ts:16-17 | a coordinate is in limits iff 0 ≤ row < rows and 0 ≤ col < cols (its contract is `Utils.InLimitsOnBoard`) |
| Utils.InLimitsOnBoard | app/helpers/utils.ts:16-17 | isInLimits accepts exactly the coordinates of the rows × cols board, and none when rows or cols is 0 |
| Utils.GetNeighbors | app/helpers/utils.ts:19-31 | the nested loop returns `Neighbors`, the array after its nine iterations |
| Utils.NeighborsExactly | app/helpers/utils.ts:16-31 | a coordinate is returned iff it is on the board and a Moore neighbour of the input, so never the input itself |
| Utils.NeighborsOrdered | app/helpers/utils.ts:21-22 | the result is in row-offset-major, column-offset-minor order and repeats no coordinate |
| Utils.NeighborsCount | app/helpers/utils.ts:19-31 | at most 8 neighbours, and exactly 8 for a cell off the border |
| Utils.NeighborsSymmetric | app/helpers/utils.ts:19-31 | for on-board a and b, b is a neighbour of a iff a is a neighbour of b |
| Utils.DedupElements | app/helpers/utils.ts:6-10 | rejecting repeated draws keeps every drawn coordinate exactly once and adds none |
| Utils.GetNRandomCoords | app/helpers/utils.ts:1-14 | the rejection-sampling loop returns the first n different draws, in draw order (`RandomCoords`) |
| Utils.RandomCoordsValid | app/helpers/utils.ts:3-11 | the result has n pairwise-distinct, on-board coordinates, all of them draws |
| Utils.RandomCoordsSucceeds | app/helpers/utils.ts:3-11 | the loop finishes once the draws hold n different coordinates |
| Utils.RandomCoordsNeedsRoom | app/helpers/utils.ts:3-11 | the loop can only finish when n ≤ rows × cols |
| CellMachine.RevealAction | app/components/Cell.tsx:17-39 | the action of `CLICK`/`REVEAL` sends at most one message, from the cell: `REVEAL_EMPTIES` iff its value is 0, `EXPLODE` iff it is a mine, nothing for 1..8, never `WIN` |
| CellMachine.Receive | app/components/Cell.tsx:6-63 | a cell's coordinates and value never change; every message carries the sender's coordinates and none is `WIN` |
| CellMachine.RevealFromUnrevealed | app/components/Cell.tsx:17-39 | `CLICK`/`REVEAL` reveal an unrevealed cell; after `UNREVEAL` it sends `REVEAL_EMPTIES` iff its value is 0, `EXPLODE` iff it is a mine, and nothing more for 1..8 |
| CellMachine.UnrevealOnExit | app/components/Cell.tsx:44 | `UNREVEAL` is sent, first, exactly on the transitions out of unrevealed |
| CellMachine.ToggleFlagAlternates | app/components/Cell.tsx:40-54 | `TOGGLE_FLAG` alternates unrevealed and flagged; `FLAG` iff entering flagged, `UNFLAG` iff leaving it |
| CellMachine.FlaggedIgnoresReveal | app/components/Cell.tsx:46-54 | a flagged cell ignores `CLICK` and `REVEAL` |
| CellMachine.RevealedIsFinal | app/components/Cell.tsx:55-61 | revealed never changes; `CLICK` there sends `REVEAL_NEIGHBORS` whatever the value |
| CellMachine.StateChanges | app/components/Cell.tsx:14-62 | the only state changes are unrevealed→revealed, unrevealed↔flagged; a silent transition changes nothing |
| Minesweeper.PosIndex | app/routes/index.tsx:91-107 | the cell pushed k-th has coordinates [k / 6, k % 6], a bijection with the board |
| Minesweeper.FillField | app/routes/index.tsx:84-115 | the nested loops build `Field(bombsCoords)`, with the bombs of `getNRandomCoords(BOMBS)` |
| Minesweeper.FieldValue | app/routes/index.tsx:89-104 | a cell is 'X' iff its coordinates are a bomb; otherwise its value is the number of bombs touching it, at most 8 |
| Minesweeper.CountBombsCard | app/routes/index.tsx:98-103 | the count loop counts the bombs among the (distinct) neighbours |
| Minesweeper.CountBombsZero | app/routes/index.tsx:98-103 | the count is 0 iff no neighbour is a bomb |
| Minesweeper.FieldWellFormed | app/routes/index.tsx:84-115 | fillField lays out 36 cells row-major with exactly 7 distinct on-board bombs, and the new board shows no mine and has no win due |
| Minesweeper.FindCell | app/routes/index.tsx:119 | `find` by id returns the first cell with those coordinates, or nothing when there is none |
| Minesweeper.FindCellLaid | app/routes/index.tsx:119-122 | on the laid-out board the lookup finds exactly the on-board coordinates, at index row·6+col |
| Minesweeper.Flaggeds | app/routes/index.tsx:138 | the filter keeps exactly the flagged cells |
| Minesweeper.SomeAt | app/routes/index.tsx:140-142 | `some` holds iff a flagged cell sits at the bomb |
| Minesweeper.EveryAt | app/routes/index.tsx:139-143 | `every` holds iff each bomb has a flagged cell on it |
| Minesweeper.CheckWin | app/routes/index.tsx:135-145 | `WIN` is sent iff no cell is unrevealed and every bomb is flagged; flags on safe cells do not block it |
| Minesweeper.CountStateZero | app/routes/index.tsx:136-137 | the game is finished iff no cell is unrevealed |
| Minesweeper.RevealTargets | app/routes/index.tsx:118-123 | sending `REVEAL` to the found neighbours keeps the board's size |
| Minesweeper.RevealTargetsSpec | app/routes/index.tsx:116-124 | each listed coordinate's cell gets one `REVEAL`, no other cell changes, and the messages are those of the revealed cells |
| Minesweeper.RevealAroundSpec | app/routes/index.tsx:116-134 | revealEmpties/revealNeighbors reveal exactly the caller's Moore neighbours, never the caller or any other cell |
| Minesweeper.RevealFirst | app/routes/index.tsx:147-149 | sending `REVEAL` to the first n cells keeps the board's size |
| Minesweeper.RevealFirstSpec | app/routes/index.tsx:146-150 | explode sends one `REVEAL` to every cell, in order, and the messages are theirs |
| Minesweeper.Step | app/routes/index.tsx:51-79 | one message keeps the board's size; once won or lost every message but `WIN` is ignored; the state changes only to won on `WIN` or to lost on `EXPLODE` while playing |
| Minesweeper.StepShrinks | app/routes/index.tsx:51-79 | each handled message reveals a cell or shrinks the worklist's weight, so every cascade ends |
| Minesweeper.Run | app/routes/index.tsx:51-79 | draining the worklist only moves cells forward (unrevealed to revealed) |
| Minesweeper.WinHidesMines | app/routes/index.tsx:135-145 | a board that passes the win check shows no mine |
| Minesweeper.MineNotWon | app/routes/index.tsx:135-145 | the win check fails while any bomb's cell is not flagged, since only that cell sits on the bomb |
| Minesweeper.StepPending | app/routes/index.tsx:51-79 | handling one message keeps the status equal to what the board and the pending `UNREVEAL`/`EXPLODE`/`WIN` messages will make it |
| Minesweeper.RunVerdict | app/routes/index.tsx:51-79 | after the cascade the status is lost iff a mine is shown, else won iff the win check holds, else playing |
| Minesweeper.UserEventVerdict | app/routes/index.tsx:51-79 | after any player event on a live board, the status is exactly that verdict of the final board |
| Minesweeper.RunSettled | app/routes/index.tsx:69-75 | in won, and in lost with no `WIN` pending, the game ignores every message |
| Minesweeper.GameOverSticks | app/routes/index.tsx:51-79 | once won or lost, a player event changes only the clicked cell and never the status (only `RESTART` leaves) |
| Minesweeper.UserEventKeepsBoard | app/routes/index.tsx:51-79 | a player event and its cascade change only cell states, so the board stays as fillField laid it out |
| Minesweeper.ExplodeRun | app/routes/index.tsx:60-63 | `EXPLODE` while playing sends `REVEAL` to every cell (`RevealFirst` of the whole board, so flagged cells stay flagged) and ends in lost; the cells' answers contain no `WIN` |
| Minesweeper.MineClickExplodes | app/components/Cell.tsx:17-44 | clicking a hidden mine reveals it and queues `UNREVEAL`, which cannot win, then `EXPLODE` |
| Minesweeper.ClickOnMine | app/routes/index.tsx:146-150 | clicking a hidden mine loses, and afterwards every non-flagged cell is revealed and every flagged one still flagged |
| Minesweeper.ClickOnNumber | app/components/Cell.tsx:17-26 | clicking a hidden 1..8 reveals just that cell; the game is won iff the win check then holds |
| Minesweeper.ClickOnRevealed | app/routes/index.tsx:125-134 | the chord click reveals every non-flagged neighbour, without counting flags |
| Minesweeper.ToggleFlagOutcome | app/components/Cell.tsx:40-54 | toggling a flag changes only that cell; the game is won iff the win check then holds |
| Minesweeper.FloodRun | app/routes/index.tsx:116-124 | the flood invariant (every change lies in the flood region, every revealed 0 has had its neighbours revealed) holds to the end of the cascade |
| Minesweeper.ZeroClickQueues | app/components/Cell.tsx:17-44 | clicking a hidden 0 reveals it and queues `UNREVEAL`, then `REVEAL_EMPTIES` from it |
| Minesweeper.FloodDone | app/routes/index.tsx:116-124 | once the cascade has drained, the flood has not lost, every cell it reaches is revealed and no other cell has changed |
| Minesweeper.ClickOnZero | app/routes/index.tsx:54-56 | clicking a hidden 0 never loses and reveals exactly the cells the flood reaches (0-cells connected through unrevealed cells, plus their unrevealed neighbours); no other cell changes |
| Minesweeper.Game.constructor | app/routes/index.tsx:43-53 | the game starts playing on `fillField`'s board, valid |
| Minesweeper.Game.Restart | app/routes/index.tsx:72-79 | `RESTART` from any state empties the board and refills it with fresh draws, playing |
| Minesweeper.Game.SendToCell | app/routes/index.tsx:121 | `cell.send(e)`: cell k takes one transition, nothing else changes, its messages are returned |
| Minesweeper.Game.RevealAround | app/routes/index.tsx:116-134 | the forEach over the neighbours equals `RevealTargets` of the neighbour list |
| Minesweeper.Game.ExplodeAll | app/routes/index.tsx:146-150 | the forEach over all cells equals `RevealFirst` of the whole board |
| Minesweeper.Game.Handle | app/routes/index.tsx:51-79 | handling one message equals `Step` |
| Minesweeper.Game.Drain | app/routes/index.tsx:43-81 | handling messages until none is left equals `Run` |
| Minesweeper.Game.UserEvent | app/routes/index.tsx:51-79 | a player event keeps the game valid; from playing the status becomes the verdict of the new board; won and lost stay |
| LetterMachine.Spawn | app/components/palabrito/LetterInput.js:5-14 | a spawned letter has the given coordinates and an empty value; it is active iff spawned active, else in inactive.notYet |
| LetterMachine.UpdateValue | app/components/palabrito/LetterInput.js:65-67 | the value becomes the input's last character, at most one character, empty iff the input is empty |
| LetterMachine.Receive | app/components/palabrito/LetterInput.js:15-61 | a letter's coordinates never change and every message carries them |
| LetterMachine.ChangeWhileActive | app/components/palabrito/LetterInput.js:18-26 | `CHANGE` while active always updates the value and sends `GO_NEXT_LETTER` iff the input is not empty |
| LetterMachine.BackOnlyWhenEmpty | app/components/palabrito/LetterInput.js:27-30 | `BACK` never changes the letter and sends `GO_BACK_LETTER` iff the letter is active and empty |
| LetterMachine.RowSubmitForwarded | app/components/palabrito/LetterInput.js:34-36 | `ROW_SUBMIT` is forwarded with the letter's coordinates iff the letter is active |
| LetterMachine.ShowFromActive | app/components/palabrito/LetterInput.js:37-45 | the three scoring events move an active letter to correct, almostCorrect, regular |
| LetterMachine.ScoredIsFinal | app/components/palabrito/LetterInput.js:51-53 | correct, almostCorrect and regular ignore every event |
| LetterMachine.InactiveFrozen | app/components/palabrito/LetterInput.js:48-60 | while inactive the value is frozen and nothing is sent; only `ACTIVATE` in notYet leaves, to active |
| LetterMachine.ValueAtMostOne | app/components/palabrito/LetterInput.js:65-67 | a letter never holds more than one character |
| Palabrito.SpawnedLayout | app/routes/palabrito.jsx:112-119 | initialize spawns 6 × 5 empty letters row-major, exactly row 0 active and the rest in notYet |
| Palabrito.FindLetter | app/routes/palabrito.jsx:128 | `find` by id returns the first letter with those coordinates, or nothing |
| Palabrito.FindLetterLaid | app/routes/palabrito.jsx:125-136 | on the spawned grid the lookup finds exactly the on-grid coordinates, at index row·5+col |
| Palabrito.GetLetterFromRow | app/routes/palabrito.jsx:7-12 | every character of the row's word comes from the value of a letter of that row |
| Palabrito.RowOfPrefix | app/routes/palabrito.jsx:7-12 | filtering the first n letters by row reads that row's values in column order |
| Palabrito.RowWord | app/routes/palabrito.jsx:7-12 | getLetterFromRow joins row r's values left to right, and is empty off the grid |
| Palabrito.RowValidIff | app/routes/palabrito.jsx:168-174 | a row may be submitted iff it is on the grid and all 5 letters are filled; the guess then spells them in order |
| Palabrito.FocusExists | app/routes/palabrito.jsx:125-136 | the guards let `FOCUS` through only to the next or previous letter of the same row, which always exists |
| Palabrito.Score | app/routes/palabrito.jsx:137-150 | correct iff the target has the letter in that column; else almost correct iff it has it anywhere; wrong iff it has it nowhere |
| Palabrito.ShowResultsRow | app/routes/palabrito.jsx:137-150 | every letter of the submitted row gets exactly its score, and no other letter changes |
| Palabrito.ActivatedRow | app/routes/palabrito.jsx:151-157 | moveToNextRow activates exactly the notYet letters of the next row and nothing else |
| Palabrito.ScoreKeepsRows | app/routes/palabrito.jsx:137-150 | scoring the active row keeps one letter per square, values of at most one character, earlier rows and this row scored, later rows waiting |
| Palabrito.NextRowRows | app/routes/palabrito.jsx:151-157 | after a scored row, activating the next one makes it the only active row |
| Palabrito.SameWordLetterwise | app/routes/palabrito.jsx:177 | sameWord holds iff the words have equal length and agree letter by letter ignoring case |
| Palabrito.SameWordLowered | app/routes/palabrito.jsx:177 | lowering is idempotent, so every word is the same word as its lower-case form |
| Palabrito.Decide | app/routes/palabrito.jsx:59-78 | the right word wins even on the last row; otherwise the last row loses; otherwise the lookup decides between the next row and idle |
| Palabrito.EmptyTarget | app/routes/palabrito.jsx:92-95 | a row submitted before the target word arrives is compared with '': it never wins and scores every letter wrong |
| Palabrito.CaseOnlyMatters | app/routes/palabrito.jsx:177 | a guess in capitals matches the lower-case target, yet its letters are scored wrong |
| Palabrito.Game.constructor | app/routes/palabrito.jsx:14-27 | the game starts in playing.gettingInitialWord with an empty word and the spawned grid |
| Palabrito.Game.Initialize | app/routes/palabrito.jsx:112-124 | the nested loops spawn exactly `Spawned()` |
| Palabrito.Game.Restart | app/routes/palabrito.jsx:104-108 | `RESTART` from any state re-spawns the grid and waits for a new word, keeping the old one meanwhile |
| Palabrito.Game.InitialWordArrived | app/routes/palabrito.jsx:30-47 | the fetched word is taken, and the game goes idle, only while waiting for it |
| Palabrito.Game.Win | app/routes/palabrito.jsx:96-98 | `WON` ends any substate of playing in won |
| Palabrito.Game.Input | app/routes/palabrito.jsx:83-95 | the letter takes the event; while playing, focus moves per the guards and a valid row starts the lookup of its word from any substate |
| Palabrito.Game.ShowRowResults | app/routes/palabrito.jsx:137-150 | the forEach over the guess equals `ShowResults` |
| Palabrito.Game.MoveToNextRow | app/routes/palabrito.jsx:151-157 | the forEach over the next row equals `Activated` |
| Palabrito.Game.LookupDone | app/routes/palabrito.jsx:59-78 | the answer is taken only in lookingForWord: won/lost after scoring, next row after scoring and activating, or idle with nothing scored, in that priority |
| Palabrito.Game.LookupFailed | app/routes/palabrito.jsx:79 | a failed lookup returns to idle with nothing scored |

## Left out

- Rendering: the `Index`, `palabrito`, `Cell` and `LetterInput` components, class names, confetti and page shell are not modelled.
- `Math.random`: replaced by the oracle `draws` of in-range coordinates.
- Utils.GetNRandomCoords: returns `None` when the draws run out before n different coordinates, where the source keeps drawing forever.
- Utils.GetNRandomCoords: the draw oracle assumes rows, cols ≥ 1; with a non-positive dimension the source draws off-board coordinates (with rows = 0, cols = 1 and n = 1 it returns [[0, 0]]), which the model does not capture.
- Utils.RandomCoordsNeedsRoom: holds only for on-board draws, so only for rows, cols ≥ 1; with a non-positive dimension the source can return n > rows × cols coordinates, all off the board.
- The duplicates of `getNRandomCoords`, `isInLimits` and `getNeighbors` in app/routes/index.tsx:12-41: these are the Utils members instantiated with ROWS = COLS = 6.
- xstate scheduling: `spawn`, `sendParent`, `send` and `getSnapshot` are replaced by a first-in first-out worklist, one message at a time. Message delivery timing beyond that order is not modelled.
- `FLAG`, `UNFLAG` and `RELEASE_NEIGHBORS`: the game has no handler for them, so the model ignores them.
- `console.log`: no game consequence.
- `REVEAL_EMPTIES` and `REVEAL_NEIGHBORS`: run the same code (app/routes/index.tsx:116-134), so `Game.RevealAround` models both.
- Palabrito network: the fetch bodies of `/random_word` and `/search_word` are not modelled. Their answers are method parameters. A failure of the word fetch is not modelled either: that invoke has no error handler.
- DOM focus: `FOCUS` only moves the browser's focus. `Palabrito.Game.Input` returns the index of the letter that would get it, and letters ignore it.
- The letter's unused `wordLength` context and the unused `deleteValue` action and `isNotEmpty` guard are not modelled.
- Strings: characters are Unicode scalar values, not UTF-16 code units.
- Palabrito.LowerChar: maps only the Basic Latin and Latin-1 capitals, not the rest of Unicode's lower-case mapping.
- Palabrito.Game.Input: takes only the three events the input box sends (`CHANGE`, `BACK`, `ROW_SUBMIT`); the other letter events come from the game.
