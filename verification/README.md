# Hare and Hounds: a verified model of the rules engine

The game is played on an eleven-node board. The human plays three Hounds and an automated
opponent plays the Hare. The Hounds try to corner the Hare, and the Hare tries to reach node 10.
The rules live inside the React component `App.tsx`, with the fixed data in `constants.ts` and
the data shapes in `types.ts`. This project restates those rules as pure Dafny functions and
proves what they promise.

The project has six modules:

- `Types` (types.dfy): pieces, sides, statuses, difficulties, board slots and the game state.
- `Boards` (boards.dfy): reading and updating a board by node id. It works the way the source's
  `board.find(p => p.id === id)` does: the first matching slot wins.
- `Constants` (constants.dfy):
  - the adjacency table, the starting board and the level and charge constants;
  - the facts about the graph, including that the renderer's 22 lines are exactly its edges.
- `Rules` (rules.dfy): valid moves (`getValidMoves`), Hare visibility (`updateHareVisibility`)
  and the ordered win check (`checkWinConditions`).
- `Game` (game.dfy):
  - applying a move (`handleMove`) and undoing a round (`handleUndoMove`);
  - the level ladder and the level-to-difficulty mapping;
  - saving, and loading with defaults for missing fields.
- `App` (app.dfy): the app as a state machine.
  - A `Session` is the game state plus the selected Hound and the one-move forced reveal.
  - An `Event` is anything the app reacts to: the buttons, clicks on pieces and nodes, the
    oracle's answer on the Hare's turn, and saving then reopening.
  - `Step` is one reaction and `Run` is a sequence of reactions.
  - `Inv` is the invariant of every state reachable from opening the app with nothing saved.
    It covers:
    - one Hare, three Hounds and seven empty slots on a well-formed board;
    - a history of good boards, starting from the starting board and ending in the current one;
    - turn parity;
    - a status that agrees with the board;
    - the level and difficulty on the ladder;
    - the charges within 0..3;
    - the visibility flag.
  - `Reachable` proves `Inv` after any sequence of events from opening the app with nothing
    saved. Each oracle answer is applied to the session it was computed on (see the third
    finding for what the code does instead).

The oracle (the language-model opponent) and the random fallback are inputs of an event. The
oracle's answer is an arbitrary, possibly nonsensical `(from, to)` pair. The random draw is an
arbitrary index `pick`, reduced modulo the number of valid moves.

Three behaviours are easy to misread; the model follows the code in each:

- A new game marks the Hare visible (App.tsx:46 and 167), although no Hound stands next to it.
  `Game.FreshGameIsLevelOne` records this. The invariant allows it only on a game's opening
  board.
- `handleUndoMove` does not look at the status (App.tsx:192). Only the Undo button's `canUndo`
  does (App.tsx:255). `Game.HandleUndo` follows the handler, and `Step` gates the event the way
  the button does.
- The oracle service checks the answer's `from` (services/geminiService.ts:88). App.tsx:229
  checks only `to`. See the second finding.

## Model

| member | source | states |
|---|---|---|
| Types.Opponent | App.tsx:119 | the turn always passes to the other side |
| Types.OpponentInvolution | types.ts:6-9 | there are exactly two sides, so flipping the turn twice gives back the side that started |
| Boards.IndexOf | App.tsx:70 | the slot found for an id carries that id, no earlier slot does, and no slot does when nothing is found |
| Boards.IndexOfPiece | App.tsx:61 | the slot found for a kind of piece holds that piece, no earlier slot does, and no slot does when nothing is found |
| Boards.IndexOfWellFormed | constants.ts:17-29 | on a board whose slot k holds node k, the slot of a node is its own index, and ids off the board have no slot |
| Boards.ReadWellFormed | App.tsx:70 | on a well-formed board, reading a node is indexing the board, and a node is empty exactly when it is a node whose slot holds nothing |
| Boards.HareNodeWellFormed | App.tsx:93 | the Hare's node exists exactly when some slot holds the Hare, and then that node holds the Hare |
| Boards.MovePiece | App.tsx:114-117 | ids are untouched; the destination receives what stood on the source; the source is emptied; every other slot is unchanged |
| Boards.MoveKeepsOccupants | App.tsx:114-117 | sliding a piece onto an empty node keeps the multiset of occupants: nothing is created or lost |
| Boards.MoveBackRestores | App.tsx:114-117 | moving a piece onto an empty node and straight back gives back the original board |
| Constants.NeighboursAreNodes | constants.ts:3-15 | every neighbour in the table is a node in 0..10, differs from its node and is listed once |
| Constants.AdjacencySymmetric | constants.ts:3-15 | b lists a exactly when a lists b |
| Constants.AdjacencyIrreflexive | constants.ts:3-15 | no node is its own neighbour |
| Constants.Degrees | constants.ts:3-15 | node 5 has eight neighbours, nodes 0 and 10 three each, every other node at most four |
| Constants.GoalNeighbours | constants.ts:14 | node 10's neighbours are exactly 7, 8 and 9, all on the back rank |
| Constants.RendererEdgesAreEdges | Board.tsx:32-38 | the renderer draws 22 lines, each an edge of the table written low end first |
| Constants.RendererEdgesDistinct | Board.tsx:32-38 | no line is drawn twice |
| Constants.EdgesMatchRenderer | constants.ts:3-15 | two nodes are adjacent exactly when the renderer draws a line between them, in one direction or the other |
| Constants.DegreeSum | constants.ts:3-15 | the degrees sum to twice the 22 drawn lines, so the table holds exactly 22 undirected edges |
| Constants.InitialBoardWellFormed | constants.ts:17-29 | the starting board has eleven slots and slot i holds node i |
| Constants.InitialBoardPlacement | constants.ts:17-29 | on the starting board, exactly slot 0 holds the Hare and exactly slots 8, 9 and 10 hold Hounds |
| Constants.InitialBoardPieces | constants.ts:17-29 | the starting board carries one Hare, three Hounds and seven empty slots |
| Constants.StartingPiecesCounts | types.ts:24-27 | a board with one Hare, three Hounds and seven empty slots has eleven slots, and its occupants are exactly that multiset, since an occupant can only be Hare, Hound or empty |
| Constants.GameConstants | constants.ts:31-32 | a game starts with three Track Hare charges, and there are ten levels |
| Rules.KeepEmpty | App.tsx:74 | keeps exactly the candidates whose node has an empty slot |
| Rules.KeepHoundTargets | App.tsx:77-82 | keeps exactly the candidates the forward-only rule lets a Hound enter |
| Rules.ValidMoves | App.tsx:69-90 | an empty or missing slot has no moves; every move is an empty neighbour; for the Hare the moves are exactly the empty neighbours; for a Hound they are exactly the empty neighbours the forward-only rule allows |
| Rules.MovesEnterEmptyNodes | App.tsx:69-90 | on a well-formed board a move starts on an occupied node and enters a different, empty node |
| Rules.HoundsMoveForward | App.tsx:76-82 | a Hound off the back rank only moves to smaller nodes; from the back rank it moves to a smaller node or along the back rank |
| Rules.HareMovesReversible | App.tsx:84-86 | after the Hare moves, the node it left is one of its valid moves |
| Rules.HareVisible | App.tsx:60-67 | the Hare is visible only when there is a Hare; `Rules.VisibleIffHoundAdjacent` gives the exact condition |
| Rules.WinStatus | App.tsx:92-110 | the win check only ever keeps the status or sets a Hare win or a Hounds win, and changes it only when there is a Hare; `Rules.WinCheckOrder` gives each case |
| Rules.VisibleIffHoundAdjacent | App.tsx:60-67 | the Hare is visible exactly when a Hound stands on a node adjacent to it, and is hidden when there is no Hare |
| Rules.WinCheckOrder | App.tsx:92-110 | the Hare on node 10 wins whoever moves next; a Hare to move, off its goal and with no valid move always gives a Hounds win, and a new Hounds win comes only that way; with the Hounds to move the status is a Hare win or unchanged; otherwise the status is left as it was, so a Hound that cannot move never ends the game |
| Game.DifficultyFor | App.tsx:159 | Easy exactly up to level 3, Hard exactly above level 7, Medium in between |
| Game.DifficultyMonotone | App.tsx:159 | a higher level never has an easier difficulty |
| Game.EveryDifficultyUsed | types.ts:18-22 | each of the three difficulties is the difficulty of some level from 1 to 10 |
| Game.NextLevel | App.tsx:182 | the level after a win is one more, capped at 10 |
| Game.LevelLadder | App.tsx:180-184 | after n wins in a row from level 1 the level is n + 1 until it reaches the cap of 10, and it never leaves 1..10 |
| Game.NewGame | App.tsx:158-172 | the starting board as the whole history, the Hounds to move, the game running, the level's difficulty, three charges and the Hare marked visible |
| Game.FreshGameIsLevelOne | App.tsx:39-48 | the game the app opens with is a new game at level 1, and it marks the Hare visible although the computed visibility is false |
| Game.HandleMove | App.tsx:112-136 | source emptied, destination filled, other slots unchanged; history grows by exactly the new board; the turn passes; visibility and status are recomputed from the new board; level, difficulty and charges unchanged |
| Game.HandleUndo | App.tsx:191-210 | refused, with nothing changed, before three boards or off the Hounds' turn; otherwise the history loses exactly two boards, the board is its new last entry, the Hounds move, the game runs and visibility is recomputed; level, difficulty and charges unchanged |
| Game.UndoReversesRound | App.tsx:191-210 | undo after a Hounds' move and any reply gives back the game the Hounds moved from, running and with visibility recomputed |
| Game.UndoDropsTwo | App.tsx:194-207 | undo after two boards were appended gives back the earlier history and board |
| Game.CanUndo | App.tsx:255 | the Undo button is enabled only when the handler will act, dropping two boards |
| Game.UndoSteps | App.tsx:192 | undo shortens the history two boards at a time, and it is refused, changing nothing, exactly before three boards or on the Hare's turn |
| Game.Save | App.tsx:186-189 | a saved game carries every field, including visibility and charges |
| Game.Load | App.tsx:24-33 | loading keeps every stored field; a missing visibility flag reads as visible and a missing charge count as three, each independently |
| Game.LoadSaveRoundTrip | App.tsx:24-33 | loading what was saved gives back the same game |
| Game.LoadLegacy | App.tsx:29-32 | a save without the two newer fields loads with the Hare visible and three charges |
| App.Open | App.tsx:23-49 | the app opens with no selection and no forced reveal, on the saved game when one is readable and on a new level-1 game otherwise |
| App.TrackHare | App.tsx:212-217 | with a charge left and the Hare hidden, exactly one charge is spent and the Hare is shown; otherwise nothing changes; the charges never go negative |
| App.ApplyMove | App.tsx:112-136 | the game moves on, the selection is cleared and the forced reveal ends, so the Hare is shown exactly when the rules make it visible |
| App.PieceClick | App.tsx:138-147 | on the Hounds' turn of a running game a click selects exactly a Hound and clears the selection otherwise; at other times it is ignored |
| App.HumanMoveAsWritten | App.tsx:149-156 | the click as written: a move exactly when there is a selection whose valid moves include the target, and then from the selection to the target |
| App.HumanMove | App.tsx:149-156 | the checked click: a move exactly when a Hound is selected on the Hounds' turn of a running game and the target is one of its valid moves |
| App.AiChooseMoveAsWritten | App.tsx:226-238 | the choice as written: always a valid destination; the oracle's whole answer, origin included, whenever its destination is valid, and the drawn move from the Hare's node otherwise |
| App.AiChooseMove | App.tsx:226-238 | the checked choice: always a move from the Hare's node to a valid node; the oracle's answer when both its ends are right, and the drawn valid move otherwise |
| App.AiMove | App.tsx:219-245 | the automated turn moves only in a running game with the Hare to move, from the Hare's node to one of its valid moves |
| App.Step | App.tsx:138-245 | a move grows the history by exactly one board, and no other event grows a non-empty history; a piece click or Track Hare leaves board and history alone; charges are only spent, or refilled by a new game |
| App.LateAiTurn | App.tsx:219-245 | the Hare's turn as scheduled: the move chosen (with the checked choice) on the session the effect saw is applied to the session current when the answer lands, whenever both its nodes have slots there; no move chosen leaves that session as it is |
| App.LateAiTurnOnTime | App.tsx:219-245 | with no event in between, the late turn is exactly the model's step for the oracle's answer |
| App.StepMove | App.tsx:138-156 | every move an event makes is a valid move of a piece of the side to move, in a running game |
| App.HareOnGoodBoard | App.tsx:93 | a good board has its Hare on a node, and no other slot holds a Hare |
| App.MoveKeepsGoodBoard | App.tsx:112-118 | a valid move on a good board gives a good board; the Hare's node follows its own move and stays put under a Hound's |
| App.MoveKeepsTurn | App.tsx:119-120 | a move keeps the turn and the history length in step |
| App.MoveKeepsHistory | App.tsx:120 | a move from a board with the Hare off its goal keeps the history a run of good boards ending in the board |
| App.MoveKeepsStatus | App.tsx:92-110 | a move of the side to move in a running game leaves a status that agrees with the new board |
| App.LegalMoveKeepsInv | App.tsx:112-136 | a valid move of a piece of the side to move, in a running game, keeps the invariant |
| App.HistoryPrefixOk | App.tsx:196-197 | every non-empty prefix of a good history is a good history ending in its own last board, and that board has the Hare off its goal when a board followed it |
| App.UndoRestores | App.tsx:194-207 | undo returns to an earlier history board, which is good and from which play went on, so the game is running with the Hounds to move |
| App.UndoKeepsInv | App.tsx:191-210 | undo, when the button allows it, keeps the invariant |
| App.NewGameInv | App.tsx:158-172 | a new game at any level of the ladder satisfies the invariant |
| App.StepKeepsInv | App.tsx:138-217 | every event keeps the invariant |
| App.RunKeepsInv | App.tsx:112-245 | any sequence of events keeps the invariant |
| App.Reachable | App.tsx:23-49 | every state reached by any events from opening the app with nothing saved satisfies the invariant |
| App.InvFacts | types.ts:29-37 | in a reachable state: one Hare, three Hounds and seven empty slots on a well-formed board; the history ends in the board; charges in 0..3; a status other than Paused; the difficulty matches the level |
| App.HareTurnAlwaysMoves | App.tsx:219-245 | in a reachable running game with the Hare to move, the Hare has a valid move, so its turn always moves |
| App.UndoKeepsTurn | App.tsx:191-204 | in reachable play, undo keeps the turn with the Hounds and leaves an odd number of boards |
| App.HumanCanMoveHareAsWritten | App.tsx:149-172 | with a Hound selected on node 0, "New Game" keeps the selection, and the click on node 1 as written moves the Hare; the checked click refuses |
| App.StaleSelectionMovesHare | App.tsx:149-156 | on a new game with node 0 still selected, the click on node 1 as written is a move of the Hare, and the checked click refuses |
| App.HoundReachesNodeZero | App.tsx:138-156 | from any session, "New Game" and nine further events reach a running game with the Hounds to move and a Hound on node 0 |
| App.LateAnswerLosesHare | App.tsx:113-117 | from any session, New Game, Hound 10 to 7, Hare 0 to 1 and Hound 7 to 4 give a state satisfying the invariant where the Hare's turn takes the answer (1, 0); if New Game is clicked before it lands, the move applied to the new game leaves no Hare, the Hare to move in a running game, no event that moves, and the invariant broken |
| App.LegacySaveShowsHare | App.tsx:29-32 | a mid-game save with the Hare hidden, written without the visibility flag, loads into a state that breaks the invariant |
| App.OracleCanMoveHoundAsWritten | App.tsx:226-233 | after "New Game" and a Hound's move from 10 to 7, the choice as written accepts the answer (8, 1), a Hound's node with the Hare's destination, while the checked turn moves from the Hare's node |

## Left out

- Rendering and layout are not modelled: Board.tsx positions, the components, modals, the
  confetti and the ad placeholder have no rules in them. Only the renderer's list of lines is
  kept, to compare it with the adjacency table.
- The oracle's network call and prompt (services/geminiService.ts) are not modelled. Its answer
  is an arbitrary optional `(from, to)` pair carried by the event.
- `Math.random` is not modelled. The fallback draw is an arbitrary natural `pick`, taken modulo
  the number of valid moves.
- Storage is not modelled: `localStorage`, JSON and the `alert`. Saving and reopening is one
  event whose saved record keeps the two newer fields as options. A save that cannot be parsed
  reads as no save. The removal of the save by a new game is left out, because the model only
  reads a save right after writing it.
- Timing is not modelled: `setTimeout`, `aiIsThinking` and the effect scheduling. The nested
  state update of the win check inside `handleMove` becomes one step, which computes the status
  from the new board and the side to move next.
- App.LateAiTurn: a chosen move naming a node that has no slot on the current board leaves the
  session unchanged. The source would throw at App.tsx:115-117. Such a move cannot arise on the
  well-formed boards of a game, where every node has its slot.
- App.Reachable relies on each oracle answer being applied to the session it was computed on.
  The code applies it to whatever session is current when it lands, and "New Game" stays enabled
  meanwhile. `App.LateAiTurn` models that, and the third finding shows it losing the Hare.
- App.Reachable covers opening with nothing saved, and reopening what the app itself saved. A
  save written by an older version lacks the visibility flag and loads with the Hare marked
  visible (App.tsx:31). Mid-game, with the Hare hidden, that breaks the invariant's visibility
  clause (`App.LegacySaveShowsHare`). Such saves are outside the invariant.
- The modal flow between a Hounds win and the next level (`nextLevel`, App.tsx:174-178) is left
  out, because it only toggles dialogs. The `PostAd` event starts the next level when the
  Hounds have won.
- `Paused` is declared but nothing produces it. No draw or stalemate rule exists in the code, so
  none is modelled.
- Constants.Neighbours: an id outside 0..10 reads as having no neighbours. The source looks up a
  missing table entry and would fail on it. This only matters on boards that are not well
  formed, and no reachable board is.
- Game.HandleMove and Boards.MovePiece require slots for both nodes. The source dereferences
  `find(...)` without a guard and would fail without them. Every move the app makes is a valid
  move, and a valid move has both slots (App.MoveSlotsExist).
- App.Step uses the checked `App.HumanMove` and `App.AiChooseMove` (see Findings). The
  as-written versions are kept alongside, with lemmas showing where they differ.

## Findings

| source | as written | input that shows it | evidently intended | confidence | as-written member | corrected member |
|---|---|---|---|---|---|---|
| App.tsx:149-172 | a click on a node moves whatever the selection's valid moves allow, and a new game keeps the selection | from any session: New Game, then the nine-event walk `App.HoundsToNodeZero`, which brings a Hound to node 0 in a running game; then a click on node 0, New Game and a click on node 1 moves the Hare on the Hounds' turn | only a selected Hound moves, on the Hounds' turn of a running game (or a new game clears the selection) | not executed | App.HumanCanMoveHareAsWritten | App.HumanMove |
| App.tsx:229 | the oracle's answer is accepted when its destination is a valid Hare move, whatever its origin | New Game, Hound 10 to 7, oracle answers (8, 1): 1 is a valid Hare move, so the Hound on 8 moves to 1, which it may not reach | the answer's origin must be the Hare's node (the oracle's own check at services/geminiService.ts:88 masks this) | not executed, low | App.OracleCanMoveHoundAsWritten | App.AiChooseMove |
| App.tsx:113-117 | handleMove applies a move to the state current when it runs, while the Hare's turn chose the move on the state its effect saw, 200 ms and an oracle round trip earlier; New Game (App.tsx:287) stays enabled meanwhile | from any session: New Game, Hound 10 to 7, Hare 0 to 1, Hound 7 to 4; the oracle answers (1, 0), but New Game is clicked before it lands: the move empties node 0 of the new board, so no Hare remains, the Hare is to move and nothing can move again | a pending answer is dropped when the game it was computed on is gone (or the move is applied only to that game) | not executed | App.LateAnswerLosesHare | App.LateAiTurnOnTime |
