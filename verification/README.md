# Chess board, human against automated side: move selection and commit protocol

This project models the decision logic of `src/main2.py` of a two-player
chess board in which white is a human dragging pieces with the mouse and
black is an automated side that scores candidate moves with two predictive
models.

What is modelled:

- **Candidate enumeration** (`Selector`): the 8x8 board is scanned row by
  row, column by column; every square holding a black piece contributes the
  list its move generator (`calc_moves`) returns, appended in that order.
  `CollectCandidates` is the nested loop as the program writes it, proved
  equal to an independent row-by-row definition (`RowsFrom`).
- **Scoring and choice** (`Selector`): one origin feature (initial row,
  column) and one destination feature (final row, column) per candidate,
  each batch scored by its model (one score per row, in row order), scores
  summed per candidate, and the first candidate with the maximal sum picked
  (numpy's `argmax` keeps the first maximum).
- **Automated commit** (`Controller.AiEffects`, `AiStep`, `AiMove`): with no
  candidate nothing happens; otherwise exactly one `move` of the chosen
  candidate and one `next_turn`, and no `set_true_en_passant`.
- **Human commit** (`Controller.MouseDownEffects`, `MouseUpEffects`): a press
  on a piece of the side to move computes its moves and picks it up; a
  release builds the move from the drag's start cell to the release cell,
  and only if `valid_move` accepts it calls `move`, `set_true_en_passant`,
  `next_turn`, in that order; the drag is released either way.
- **Per-frame gate** (`Controller.Frame`, `Route`, `RouteAsWritten`): the
  automated step runs only when black is to move; mouse events reach the
  human handling only when white is to move; each event sees the side to
  move as the earlier events left it.

The board code (`calc_moves`, `valid_move`, `move`, `set_true_en_passant`,
`next_turn`, `Square`, `Move`) is not part of this model: it is reached
through `ChessTypes.Collaborators`, a record of opaque total functions over
an abstract board type `B`, and no piece-movement rule is assumed. Each
handler returns the list of calls it makes (an `Effect` log);
`Controller.Perform` replays a log on a state, so "called exactly once" and
"never called" are statements about that log.

The candidates are a list, not a set: the code concatenates the move lists
(order and duplicates matter) and always collects the pieces whose colour is
`'black'`, whichever side is nominally to move.

The event dispatch is modelled twice. `Controller.Handle`, `RunEvents` and
`Frame` follow the code as written, where key and quit events are dropped
while white is to move (see "## Findings"); `HandleIntended`,
`RunEventsIntended` and `FrameIntended` are the corrected dispatch in which
they are handled on either side's turn.

## Model

| member | source | states |
|---|---|---|
| Selector.CollectCandidates | src/main2.py:28-35 | the nested row/column loops produce exactly the row-by-row concatenation of every square's contribution (row outer, column inner, each piece's moves in generator order) |
| Selector.RowMajorOrder | src/main2.py:29-35 | the candidate list equals the reference row-major concatenation `RowsFrom(0)` |
| Selector.CandidateMembers | src/main2.py:29-35 | a move is a candidate if and only if some on-board square contributes it |
| Selector.CandidatesFromBlackPieces | src/main2.py:31-34 | every candidate is in the move list of a black piece standing on an on-board square, computed for that square |
| Selector.NoCandidates | src/main2.py:37-38 | the candidate list is empty if and only if no square contributes a move |
| Selector.Predict | src/main2.py:46-47 | a batched model call returns one score per input row, in input order |
| Selector.ScoresAligned | src/main2.py:42-47 | origin row i, destination row i and summed score i all belong to candidate i |
| Selector.ArgMax | src/main2.py:50 | the index is in range, its entry is maximal, and every earlier entry is strictly smaller (first maximum) |
| Selector.ArgMaxScan | src/main2.py:50 | a left-to-right scan keeping strict improvements returns an in-range first maximum |
| Selector.ArgMaxUnique | src/main2.py:50 | any in-range first maximum is the one `ArgMax` returns |
| Selector.SelectIndex | src/main2.py:37-51 | no index for an empty list; otherwise an index inside the list whose candidate has the maximal summed score with no earlier candidate tying it |
| Selector.SelectionUnique | src/main2.py:50-51 | the chosen index is the only first-best one, so the choice is determined by board and scores |
| Controller.AiEffects | src/main2.py:23-58 | no calls exactly when no square contributes a move; otherwise `move` of a first-best candidate then `next_turn`, one of each, and no `set_true_en_passant` |
| Controller.AiCommitOutcome | src/main2.py:54-58 | committing the choice applies that move once, passes the turn once and leaves the dragger alone |
| Controller.AiStep | src/main2.py:77-80 | white to move or no candidate leaves the state unchanged; otherwise the board is the first-best candidate applied once and the turn has advanced once |
| Controller.AiMove | src/main2.py:23-58 | the imperative collect/score/argmax/commit reaches the same state as replaying `AiEffects` |
| Controller.MouseDownEffects | src/main2.py:85-95 | calls are made exactly when the pressed cell holds a piece of the side to move, and then they are `calc_moves` for that piece and cell followed by picking that piece up at that cell; a press never moves a piece or passes the turn |
| Controller.MouseDownOutcome | src/main2.py:88-95 | a press on a piece of the side to move records that piece's moves for the pressed cell and picks it up from that cell; a press anywhere else changes nothing; the turn never changes |
| Controller.MouseUpEffects | src/main2.py:101-120 | the last call releases the drag; `move`, `set_true_en_passant` and `next_turn` are each called once, in that order, exactly when a piece is dragged and `valid_move` accepts the dragged move, and otherwise only the release happens |
| Controller.MouseUpOutcome | src/main2.py:106-120 | a refused release leaves board and turn unchanged; an accepted one yields the moved board with en-passant flags set and the next turn; the dragger is empty in both cases |
| Controller.EnPassantAsymmetry | src/main2.py:54-118 | the automated commit never calls `set_true_en_passant`, an accepted human commit calls it exactly once, right after `move` |
| Controller.RouteAsWritten | src/main2.py:82-132 | as written: mouse events go to human handling exactly on white's turn, key and quit events are handled exactly when white is not to move |
| Controller.QuitDroppedOnWhiteTurn | src/main2.py:83-132 | as written, a window close or key press during white's turn is dropped |
| Controller.Route | src/main2.py:82-132 | corrected: mouse events go to human handling exactly on white's turn, key and quit events are always handled |
| Controller.RoutesAgreeOnMouse | src/main2.py:83-101 | the corrected and as-written dispatch agree on every mouse event |
| Controller.Handle | src/main2.py:82-132 | as written: on white's turn an event does exactly its human handling (so it never exits or resets); on black's turn the program exits exactly on quit, and otherwise the state is unchanged |
| Controller.HandleIntended | src/main2.py:82-132 | corrected: the program exits exactly on quit, whoever is to move, and mouse events are handled exactly as written |
| Controller.QuitThenPressOnWhite | src/main2.py:83-132 | white to move, a close followed by a press: as written the close is dropped and the press picks up the piece; corrected, the program exits |
| Controller.RunEvents | src/main2.py:82-132 | as written, a batch ends the program only if it holds a close and resets it only if it holds key `r`; from black's turn it is handled exactly as the corrected dispatch handles it |
| Controller.Frame | src/main2.py:66-132 | one loop iteration (automated step, then the batch) ends the program only on a close in the batch and resets only on key `r` |
| Controller.RunEventsIntended | src/main2.py:82-132 | corrected: a batch ends the program exactly when a close comes before any reset key, whoever is to move |
| Controller.FrameIntended | src/main2.py:66-132 | corrected: an iteration ends the program exactly when a close comes before any reset key in its batch |
| Controller.WhiteBatchWithoutRelease | src/main2.py:83-132 | as written, a batch handled on white's turn without a release never exits or resets and leaves white to move, so its closes and key presses are lost |
| Controller.FrameAfterAutomatedMove | src/main2.py:77-132 | with a flipping `next_turn`, after an automated move the batch is handled on white's turn: as written a batch without a release cannot end the program, corrected it ends exactly when a close precedes any reset key |
| Controller.FrameWithoutCandidates | src/main2.py:77-132 | black to move with no candidate: the written and corrected iterations agree, and the program ends exactly when a close precedes any reset key |
| Controller.AiOnlyOnBlack | src/main2.py:78-79 | when white is to move a frame is just its events: the automated side is not consulted |
| Controller.MouseOnlyOnWhite | src/main2.py:82-85 | a mouse event while black is to move changes nothing |
| Controller.CommitGate | src/main2.py:101-118 | an event moves a piece only as a release on white's turn that `valid_move` accepted, moving the dragged piece along the dragged move, with exactly one `next_turn` |
| Controller.PerformTurn | src/main2.py:58 | with a flipping `next_turn`, replaying any log flips the side to move once per `next_turn` call |
| Controller.AiCommitFlipsTurn | src/main2.py:54-58 | with a flipping `next_turn`, the automated step changes the side to move exactly when it commits a move |
| Controller.EventCommitFlipsTurn | src/main2.py:110-118 | with a flipping `next_turn`, an event changes the side to move exactly when it commits a human move |

## Left out

- Rendering, sprites, hover and move highlighting, sound, theme switching and the display update: presentation only.
- Loading the two predictive models and their numerics: the models are opaque integer-valued functions of a coordinate pair; floating-point scores (and numpy's handling of NaN in `argmax`) are not modelled.
- Selector.Predict: models one score per candidate, which is how the code uses the result (it adds the two score arrays element by element and takes the index as a candidate index); a model returning several columns per row, where numpy's flat `argmax` could index past the candidate list, is not modelled.
- The internals of `calc_moves`, `valid_move`, `move`, `set_true_en_passant`, `next_turn`, `Square` and `Move`: `board.py`, `game.py`, `square.py` and `move.py` are not part of this model, so they are opaque collaborators.
- Move generation: the automated side's `calc_moves(..., bool=False)` is taken to read the board without changing it; the human side's `calc_moves(..., bool=True)` is a board transition (`calcMovesForDrag`) that records moves for `valid_move`.
- Move equality: moves are compared as whole values (including the carried piece); whether the board code compares moves by squares only matters only inside the opaque `valid_move`.
- Controller.PerformTurn: `next_turn` is opaque, so turn alternation is proved under the hypothesis that it flips the side.
- Pixel-to-cell conversion: events carry grid cells (`Coord`, 0 to 7) directly.
- Reset (key `r`): the controls branch yields `ResetRequested`; reinitialising the game (`game.reset()` and `__init__`) is not modelled.
- Controller.RunEvents: stops at `ResetRequested`, whereas the code carries on with the remaining events and frames. After a reset, `self.__init__()` rebinds `self.game` (and the screen) only: `ai_move` then works on the new `self.game`, while the turn gate and the human handling keep using the `game`, `board` and `dragger` locals bound once at the top of `mainloop`, in every later frame. Whether those old objects are themselves reinitialised depends on `game.reset()` in `game.py`, which is not part of this model, so nothing after a reset is modelled.
- `is_ai_turn`: written, never read.
- Program exit: a quit event ends the frame's processing with `Exited`.

## Findings

| source | as written | input that shows it | evidently intended | confidence | as-written member | corrected member |
|---|---|---|---|---|---|---|
| src/main2.py:83-132 | the key and quit branches are `elif` arms of `if game.next_player == 'white'`, so they run only when white is not to move | white to move, event `Quit` (or any key): the event is dropped and the loop goes on | key and quit events handled on either side's turn | medium; not executed | Controller.QuitDroppedOnWhiteTurn, Controller.QuitThenPressOnWhite, Controller.WhiteBatchWithoutRelease | Controller.Route, Controller.HandleIntended |
