/** The interaction controller: the automated side's turn, the human side's
    drag-and-drop commit, and the per-frame gate that decides which of the
    two runs. Every handler yields the list of calls it makes on the board
    and game (an effect log); `Perform` replays such a log on a state. */
module Controller {
  import opened ChessTypes
  import opened Selector

  /** What the dragger holds while a piece is dragged: the piece and the
      grid cell it was picked up from. */
  datatype Drag = Drag(piece: Piece, row: Coord, col: Coord)

  /** The part of the game the controller reads and changes: the board, the
      side to move (`next_player`) and the dragger. */
  datatype State<B> = State(board: B, turn: Color, drag: Option<Drag>)

  /** One call on the board, the game or the dragger. */
  datatype Effect =
    | CalcMovesForDrag(piece: Piece, row: Coord, col: Coord)
    | DragPiece(drag: Drag)
    | MovePiece(mover: Option<Piece>, move: Move)
    | SetTrueEnPassant(piece: Piece)
    | NextTurn
    | UndragPiece

  function Apply<B>(c: Collaborators<B>, s: State<B>, e: Effect): State<B>
  {
    match e
    case CalcMovesForDrag(p, row, col) => s.(board := c.calcMovesForDrag(s.board, p, row, col))
    case DragPiece(d) => s.(drag := Some(d))
    case MovePiece(p, m) => s.(board := c.move(s.board, p, m))
    case SetTrueEnPassant(p) => s.(board := c.setTrueEnPassant(s.board, p))
    case NextTurn => s.(turn := c.nextTurn(s.turn))
    case UndragPiece => s.(drag := None)
  }

  /** The state after making the calls of `effects`, first to last. */
  function Perform<B>(c: Collaborators<B>, s: State<B>, effects: seq<Effect>): State<B>
    decreases |effects|
  {
    if effects == [] then s else Perform(c, Apply(c, s, effects[0]), effects[1..])
  }

  /** Number of `move` calls in a log. */
  function Commits(effects: seq<Effect>): nat
  {
    if effects == [] then 0
    else (if effects[0].MovePiece? then 1 else 0) + Commits(effects[1..])
  }

  /** Number of `next_turn` calls in a log. */
  function Turns(effects: seq<Effect>): nat
  {
    if effects == [] then 0
    else (if effects[0] == NextTurn then 1 else 0) + Turns(effects[1..])
  }

  /** Number of `set_true_en_passant` calls in a log. */
  function EnPassantCalls(effects: seq<Effect>): nat
  {
    if effects == [] then 0
    else (if effects[0].SetTrueEnPassant? then 1 else 0) + EnPassantCalls(effects[1..])
  }

  lemma {:induction false} CountsConcat(a: seq<Effect>, b: seq<Effect>)
    ensures Commits(a + b) == Commits(a) + Commits(b)
    ensures EnPassantCalls(a + b) == EnPassantCalls(a) + EnPassantCalls(b)
    ensures Turns(a + b) == Turns(a) + Turns(b)
  {
    if a != [] {
      assert (a + b)[1..] == a[1..] + b;
      CountsConcat(a[1..], b);
    } else {
      assert a + b == b;
    }
  }

  // ---------------------------------------------------------------------
  // The automated side

  /** The two calls that commit the automated side's choice. */
  function AiCommit(m: Move): (r: seq<Effect>)
    ensures Commits(r) == 1 && Turns(r) == 1 && EnPassantCalls(r) == 0
  {
    var r := [MovePiece(m.piece, m), NextTurn];
    assert r[1..] == [NextTurn] && r[1..][1..] == [];
    assert Commits(r[1..]) == 0 && EnPassantCalls(r[1..]) == 0 && Turns(r[1..]) == 1;
    r
  }

  /** The calls `ai_move` makes: none when no black piece has a move,
      otherwise one `move` of the first best-scoring candidate, then one
      `next_turn`, and never `set_true_en_passant`. */
  function AiEffects<B>(c: Collaborators<B>, b: B): (r: seq<Effect>)
    ensures r == [] <==> forall row, col :: 0 <= row < 8 && 0 <= col < 8 ==> MovesAt(c, b, row, col) == []
    ensures r != [] ==>
              exists i :: FirstBest(c, Candidates(c, b), i) && r == AiCommit(Candidates(c, b)[i])
    ensures Commits(r) == Turns(r) == (if r == [] then 0 else 1)
    ensures EnPassantCalls(r) == 0
  {
    var moves := Candidates(c, b);
    NoCandidates(c, b);
    match SelectIndex(c, moves)
    case None => []
    case Some(i) => AiCommit(moves[i])
  }

  /** Committing the automated side's choice moves it once, passes the turn
      once and leaves the dragger alone. */
  lemma AiCommitOutcome<B>(c: Collaborators<B>, s: State<B>)
    ensures forall m :: Perform(c, s, AiCommit(m)) == State(c.move(s.board, m.piece, m), c.nextTurn(s.turn), s.drag)
  {
    forall m
      ensures Perform(c, s, AiCommit(m)) == State(c.move(s.board, m.piece, m), c.nextTurn(s.turn), s.drag)
    {
      var r := AiCommit(m);
      var s1 := s.(board := c.move(s.board, m.piece, m));
      assert r[1..] == [NextTurn] && r[1..][1..] == [];
      assert Perform(c, s, r) == Perform(c, s1, r[1..]);
      assert Perform(c, s1, r[1..]) == Perform(c, s1.(turn := c.nextTurn(s.turn)), r[1..][1..]);
    }
  }

  /** The automated step at the top of every frame: it runs only when black
      is to move. With no candidate it changes nothing; otherwise the board
      is the chosen move applied once, the turn has advanced once, and the
      dragger is untouched. */
  function AiStep<B>(c: Collaborators<B>, s: State<B>): (r: State<B>)
    ensures s.turn == White ==> r == s
    ensures Candidates(c, s.board) == [] ==> r == s
    ensures s.turn == Black && Candidates(c, s.board) != [] ==>
              exists i :: FirstBest(c, Candidates(c, s.board), i) &&
                r == State(c.move(s.board, Candidates(c, s.board)[i].piece, Candidates(c, s.board)[i]),
                           c.nextTurn(s.turn), s.drag)
  {
    if s.turn == Black then
      NoCandidates(c, s.board);
      AiCommitOutcome(c, s);
      Perform(c, s, AiEffects(c, s.board))
    else s
  }

  /** `ai_move` as the program writes it: collect, score, take the argmax,
      move, advance the turn. */
  method AiMove<B>(c: Collaborators<B>, s: State<B>) returns (next: State<B>)
    ensures next == Perform(c, s, AiEffects(c, s.board))
  {
    var moves := CollectCandidates(c, s.board);
    RowMajorOrder(c, s.board);
    if |moves| == 0 {
      assert AiEffects(c, s.board) == [];
      return s;
    }
    var scores := CombinedScores(c, moves);
    ScoresAligned(c, moves);
    var best := ArgMaxScan(scores);
    SelectionUnique(c, moves, best);
    var m := moves[best];
    next := State(c.move(s.board, m.piece, m), c.nextTurn(s.turn), s.drag);
    assert AiEffects(c, s.board) == AiCommit(m);
    AiCommitOutcome(c, s);
  }

  // ---------------------------------------------------------------------
  // The human side

  /** The calls a mouse press on cell (row, col) makes: when the cell holds
      a piece of the side to move, its moves are computed for `valid_move`
      and the piece is picked up; otherwise nothing. */
  function MouseDownEffects<B>(c: Collaborators<B>, s: State<B>, row: Coord, col: Coord): (r: seq<Effect>)
    ensures r != [] <==> exists p :: c.pieceAt(s.board, Square(row, col)) == Some(p) && p.color == s.turn
    ensures r != [] ==>
              var p := c.pieceAt(s.board, Square(row, col)).value;
              r == [CalcMovesForDrag(p, row, col), DragPiece(Drag(p, row, col))]
    ensures Commits(r) == 0 && Turns(r) == 0 && EnPassantCalls(r) == 0
  {
    match c.pieceAt(s.board, Square(row, col))
    case Some(p) =>
      if p.color == s.turn then
        var r := [CalcMovesForDrag(p, row, col), DragPiece(Drag(p, row, col))];
        assert r[1..] == [DragPiece(Drag(p, row, col))] && r[1..][1..] == [];
        assert Commits(r[1..]) == 0 && EnPassantCalls(r[1..]) == 0 && Turns(r[1..]) == 0;
        r
      else []
    case None => []
  }

  /** What a press does to the state: on a piece of the side to move, the
      board has that piece's moves recorded for cell (row, col) and the
      dragger holds the piece with (row, col) as its start cell; on any other
      cell nothing changes. Side to move is unchanged either way. */
  lemma MouseDownOutcome<B>(c: Collaborators<B>, s: State<B>, row: Coord, col: Coord)
    ensures Perform(c, s, MouseDownEffects(c, s, row, col)).turn == s.turn
    ensures (exists p :: c.pieceAt(s.board, Square(row, col)) == Some(p) && p.color == s.turn) ==>
              var p := c.pieceAt(s.board, Square(row, col)).value;
              Perform(c, s, MouseDownEffects(c, s, row, col)) ==
                s.(board := c.calcMovesForDrag(s.board, p, row, col), drag := Some(Drag(p, row, col)))
    ensures !(exists p :: c.pieceAt(s.board, Square(row, col)) == Some(p) && p.color == s.turn) ==>
              Perform(c, s, MouseDownEffects(c, s, row, col)) == s
  {
    var r := MouseDownEffects(c, s, row, col);
    if r != [] {
      var p := c.pieceAt(s.board, Square(row, col)).value;
      var s1 := s.(board := c.calcMovesForDrag(s.board, p, row, col));
      assert r[1..] == [DragPiece(Drag(p, row, col))] && r[1..][1..] == [];
      assert Perform(c, s, r) == Perform(c, s1, r[1..]);
      assert Perform(c, s1, r[1..]) == Perform(c, s1.(drag := Some(Drag(p, row, col))), r[1..][1..]);
    }
  }

  /** The move a drag released on (row, col) describes. */
  function DraggedMove(d: Drag, row: Coord, col: Coord): Move
  {
    Move(Square(d.row, d.col), Square(row, col), None)
  }

  /** A release on (row, col) commits: a piece is being dragged and
      `valid_move` accepts the move it describes. */
  predicate Accepted<B>(c: Collaborators<B>, s: State<B>, row: Coord, col: Coord)
  {
    s.drag.Some? && c.validMove(s.board, s.drag.value.piece, DraggedMove(s.drag.value, row, col))
  }

  /** The three calls that commit a dragged move, in the program's order. */
  function HumanCommit(p: Piece, m: Move): (r: seq<Effect>)
    ensures Commits(r) == 1 && Turns(r) == 1 && EnPassantCalls(r) == 1
  {
    var r := [MovePiece(Some(p), m), SetTrueEnPassant(p), NextTurn];
    assert r[1..] == [SetTrueEnPassant(p), NextTurn];
    assert r[1..][1..] == [NextTurn] && r[1..][1..][1..] == [];
    assert Commits(r[1..][1..]) == 0 && EnPassantCalls(r[1..][1..]) == 0 && Turns(r[1..][1..]) == 1;
    r
  }

  /** The calls a mouse release on (row, col) makes: an accepted move is
      applied, then `set_true_en_passant`, then `next_turn`; the drag is
      released last whether or not the move was accepted. */
  function MouseUpEffects<B>(c: Collaborators<B>, s: State<B>, row: Coord, col: Coord): (r: seq<Effect>)
    ensures |r| > 0 && r[|r| - 1] == UndragPiece
    ensures Commits(r) == Turns(r) == EnPassantCalls(r) == (if Accepted(c, s, row, col) then 1 else 0)
    ensures Accepted(c, s, row, col) ==>
              |r| == 4 &&
              r[0] == MovePiece(Some(s.drag.value.piece), DraggedMove(s.drag.value, row, col)) &&
              r[1] == SetTrueEnPassant(s.drag.value.piece) && r[2] == NextTurn
    ensures !Accepted(c, s, row, col) ==> r == [UndragPiece]
  {
    var release := [UndragPiece];
    assert Commits(release) == 0 && EnPassantCalls(release) == 0 && Turns(release) == 0 by {
      assert release[1..] == [];
    }
    match s.drag
    case None => release
    case Some(d) =>
      var m := DraggedMove(d, row, col);
      if c.validMove(s.board, d.piece, m) then
        CountsConcat(HumanCommit(d.piece, m), release);
        HumanCommit(d.piece, m) + release
      else release
  }

  /** What a release does to the state: a refused move leaves board and turn
      as they were; an accepted one is moved, has its en-passant flags set
      and passes the turn; the dragger is empty afterwards in both cases. */
  lemma MouseUpOutcome<B>(c: Collaborators<B>, s: State<B>, row: Coord, col: Coord)
    ensures Perform(c, s, MouseUpEffects(c, s, row, col)).drag == None
    ensures !Accepted(c, s, row, col) ==>
              Perform(c, s, MouseUpEffects(c, s, row, col)) == s.(drag := None)
    ensures Accepted(c, s, row, col) ==>
              var p := s.drag.value.piece;
              Perform(c, s, MouseUpEffects(c, s, row, col)) ==
                State(c.setTrueEnPassant(c.move(s.board, Some(p), DraggedMove(s.drag.value, row, col)), p),
                      c.nextTurn(s.turn), None)
  {
    var r := MouseUpEffects(c, s, row, col);
    if Accepted(c, s, row, col) {
      var d := s.drag.value;
      var s1 := s.(board := c.move(s.board, Some(d.piece), DraggedMove(d, row, col)));
      var s2 := s1.(board := c.setTrueEnPassant(s1.board, d.piece));
      var s3 := s2.(turn := c.nextTurn(s2.turn));
      assert r[1..][1..][1..] == [UndragPiece];
      assert Perform(c, s3, r[1..][1..][1..]) == s3.(drag := None) by {
        assert r[1..][1..][1..][1..] == [];
      }
      assert Perform(c, s, r) == Perform(c, s1, r[1..]);
      assert Perform(c, s1, r[1..]) == Perform(c, s2, r[1..][1..]);
      assert Perform(c, s2, r[1..][1..]) == Perform(c, s3, r[1..][1..][1..]);
    } else {
      assert r[1..] == [];
    }
  }

  /** The automated path never calls `set_true_en_passant`; an accepted
      human move calls it exactly once, between `move` and `next_turn`. */
  lemma EnPassantAsymmetry<B>(c: Collaborators<B>, s: State<B>, row: Coord, col: Coord)
    requires Accepted(c, s, row, col)
    requires Candidates(c, s.board) != []
    ensures EnPassantCalls(AiEffects(c, s.board)) == 0
    ensures AiEffects(c, s.board)[0].MovePiece? && AiEffects(c, s.board)[1] == NextTurn
    ensures EnPassantCalls(MouseUpEffects(c, s, row, col)) == 1
    ensures MouseUpEffects(c, s, row, col)[1].SetTrueEnPassant?
  {
    NoCandidates(c, s.board);
    var r := MouseUpEffects(c, s, row, col);
    assert r[1] == r[..3][1];
  }

  // ---------------------------------------------------------------------
  // Events and the per-frame gate

  /** Input events, with pointer positions already converted to grid cells. */
  datatype Event =
    | MouseDown(row: Coord, col: Coord)
    | MouseUp(row: Coord, col: Coord)
    | KeyDown(key: char)
    | Quit
    | Other

  /** Where an event goes: the human move handling, the key and window
      controls, or nowhere. */
  datatype Handler = ToHuman | ToControls | Dropped

  /** The dispatch as written: the key and quit branches hang off the test
      of the side to move, so they are reached only when white is not to
      move, and every event other than a mouse press or release is dropped
      during white's turn. */
  function RouteAsWritten(turn: Color, e: Event): (h: Handler)
    ensures h == ToHuman <==> turn == White && (e.MouseDown? || e.MouseUp?)
    ensures h == ToControls <==> turn != White && (e.KeyDown? || e.Quit?)
  {
    if turn == White then
      (if e.MouseDown? || e.MouseUp? then ToHuman else Dropped)
    else if e.KeyDown? || e.Quit? then ToControls
    else Dropped
  }

  /** A window close or key press during white's turn is dropped by the
      dispatch as written. */
  lemma QuitDroppedOnWhiteTurn(k: char)
    ensures RouteAsWritten(White, Quit) == Dropped
    ensures RouteAsWritten(White, KeyDown(k)) == Dropped
  {
  }

  /** The dispatch with key and quit events handled on either side's turn;
      mouse events still reach the human handling only on white's turn. */
  function Route(turn: Color, e: Event): (h: Handler)
    ensures h == ToHuman <==> turn == White && (e.MouseDown? || e.MouseUp?)
    ensures h == ToControls <==> e.KeyDown? || e.Quit?
  {
    if e.KeyDown? || e.Quit? then ToControls
    else if turn == White && (e.MouseDown? || e.MouseUp?) then ToHuman
    else Dropped
  }

  /** The two dispatches agree on every mouse event, so the turn gate on
      human moves is the program's own. */
  lemma RoutesAgreeOnMouse(turn: Color, e: Event)
    requires e.MouseDown? || e.MouseUp?
    ensures Route(turn, e) == RouteAsWritten(turn, e)
  {
  }

  /** The result of processing events: still running, the window closed, or
      a reset was requested. */
  datatype Outcome<B> = Running(state: State<B>) | Exited | ResetRequested

  /** The calls one event makes on the board, game and dragger. */
  function EventEffects<B>(c: Collaborators<B>, s: State<B>, e: Event): (r: seq<Effect>)
    ensures Commits(r) == Turns(r) <= 1
    ensures s.turn == Black ==> r == []
  {
    if RouteAsWritten(s.turn, e) != ToHuman then []
    else match e
      case MouseDown(row, col) => MouseDownEffects(c, s, row, col)
      case MouseUp(row, col) => MouseUpEffects(c, s, row, col)
      case _ => []
  }

  /** Key `r`, which asks for a new game. */
  predicate IsResetKey(e: Event)
  {
    e.KeyDown? && e.key == 'r'
  }

  /** A close comes before any reset key in `events`. */
  predicate QuitFirst(events: seq<Event>)
  {
    exists i :: 0 <= i < |events| && events[i].Quit? &&
      forall j :: 0 <= j < i ==> !IsResetKey(events[j])
  }

  /** Dropping a head that neither closes nor resets does not change
      whether a close comes first. */
  lemma QuitFirstTail(events: seq<Event>)
    requires events != [] && !events[0].Quit? && !IsResetKey(events[0])
    ensures QuitFirst(events) <==> QuitFirst(events[1..])
  {
  }

  /** The controls branch: quit ends the program, key `r` resets, any other
      key (the theme key among them) leaves the modelled state alone. */
  function Controls<B>(s: State<B>, e: Event): Outcome<B>
  {
    if e.Quit? then Exited
    else if IsResetKey(e) then ResetRequested
    else Running(s)
  }

  /** One event, dispatched as written: during white's turn only mouse
      events act and the program never exits or resets; during black's turn
      mouse events are ignored and quit ends the program. */
  function Handle<B>(c: Collaborators<B>, s: State<B>, e: Event): (r: Outcome<B>)
    ensures s.turn == White ==> r == Running(Perform(c, s, EventEffects(c, s, e)))
    ensures s.turn == Black ==> (r == Exited <==> e.Quit?) && (r.Running? ==> r.state == s)
  {
    match RouteAsWritten(s.turn, e)
    case ToHuman => Running(Perform(c, s, EventEffects(c, s, e)))
    case ToControls => Controls(s, e)
    case Dropped => Running(s)
  }

  /** Events of one frame, first to last, each seeing the side to move as
      the earlier ones left it; processing stops at quit or reset. The
      program ends only on a close in the batch and resets only on key `r`;
      from black's turn the batch is handled exactly as the corrected
      dispatch handles it. */
  function RunEvents<B>(c: Collaborators<B>, s: State<B>, events: seq<Event>): (r: Outcome<B>)
    ensures r == Exited ==> Quit in events
    ensures r == ResetRequested ==> exists i :: 0 <= i < |events| && IsResetKey(events[i])
    ensures s.turn == Black ==> r == RunEventsIntended(c, s, events)
    decreases |events|
  {
    if events == [] then Running(s)
    else match Handle(c, s, events[0])
      case Running(s') => RunEvents(c, s', events[1..])
      case other => other
  }

  /** One iteration of the main loop: the automated step, then the events.
      It ends the program only on a close in the batch and resets only on
      key `r`. */
  function Frame<B>(c: Collaborators<B>, s: State<B>, events: seq<Event>): (r: Outcome<B>)
    ensures r == Exited ==> Quit in events
    ensures r == ResetRequested ==> exists i :: 0 <= i < |events| && IsResetKey(events[i])
  {
    RunEvents(c, AiStep(c, s), events)
  }

  /** One event under the corrected dispatch: quit ends the program on either
      side's turn, and every mouse event is handled exactly as written. */
  function HandleIntended<B>(c: Collaborators<B>, s: State<B>, e: Event): (r: Outcome<B>)
    ensures r == Exited <==> e.Quit?
    ensures (e.MouseDown? || e.MouseUp?) ==> r == Handle(c, s, e)
  {
    match Route(s.turn, e)
    case ToHuman => Running(Perform(c, s, EventEffects(c, s, e)))
    case ToControls => Controls(s, e)
    case Dropped => Running(s)
  }

  /** A batch under the corrected dispatch: the program ends exactly when a
      close comes before any reset key, whoever is to move and whatever the
      mouse does. */
  function RunEventsIntended<B>(c: Collaborators<B>, s: State<B>, events: seq<Event>): (r: Outcome<B>)
    ensures r == Exited <==> QuitFirst(events)
    ensures r == ResetRequested ==> exists i :: 0 <= i < |events| && IsResetKey(events[i])
    decreases |events|
  {
    if events == [] then Running(s)
    else match HandleIntended(c, s, events[0])
      case Running(s') =>
        QuitFirstTail(events);
        var r := RunEventsIntended(c, s', events[1..]);
        assert r == ResetRequested ==> exists i :: 0 <= i < |events| && IsResetKey(events[i]) by {
          if r == ResetRequested {
            var i :| 0 <= i < |events[1..]| && IsResetKey(events[1..][i]);
            assert IsResetKey(events[i + 1]);
          }
        }
        r
      case other =>
        assert events[0].Quit? ==> QuitFirst(events);
        assert IsResetKey(events[0]) ==> !QuitFirst(events);
        other
  }

  /** A frame with the corrected dispatch: it ends the program exactly when a
      close comes before any reset key in the batch. */
  function FrameIntended<B>(c: Collaborators<B>, s: State<B>, events: seq<Event>): (r: Outcome<B>)
    ensures r == Exited <==> QuitFirst(events)
  {
    RunEventsIntended(c, AiStep(c, s), events)
  }

  /** On white's turn a window close followed by a press: as written the
      close is dropped and the press is handled; the corrected dispatch
      exits. */
  lemma QuitThenPressOnWhite<B>(c: Collaborators<B>, s: State<B>, row: Coord, col: Coord)
    requires s.turn == White
    ensures RunEvents(c, s, [Quit, MouseDown(row, col)]) ==
              Running(Perform(c, s, MouseDownEffects(c, s, row, col)))
    ensures RunEventsIntended(c, s, [Quit, MouseDown(row, col)]) == Exited
  {
    var evs := [Quit, MouseDown(row, col)];
    assert evs[1..] == [MouseDown(row, col)] && evs[1..][1..] == [];
    MouseDownOutcome(c, s, row, col);
    var s' := Perform(c, s, MouseDownEffects(c, s, row, col));
    assert RunEvents(c, s, evs) == RunEvents(c, s, evs[1..]);
    assert RunEvents(c, s, evs[1..]) == RunEvents(c, s', evs[1..][1..]);
  }

  /** As written, a batch handled on white's turn with no release in it
      never ends the program or resets it, and leaves white to move: every
      close and key press in it is lost. */
  lemma {:induction false} WhiteBatchWithoutRelease<B>(c: Collaborators<B>, s: State<B>, events: seq<Event>)
    requires s.turn == White
    requires forall i :: 0 <= i < |events| ==> !events[i].MouseUp?
    ensures RunEvents(c, s, events).Running?
    ensures RunEvents(c, s, events).state.turn == White
    decreases |events|
  {
    if events != [] {
      var e := events[0];
      var s' := Perform(c, s, EventEffects(c, s, e));
      if e.MouseDown? {
        MouseDownOutcome(c, s, e.row, e.col);
      } else {
        assert EventEffects(c, s, e) == [];
      }
      assert s'.turn == White;
      assert Handle(c, s, e) == Running(s');
      assert forall i :: 0 <= i < |events[1..]| ==> !events[1..][i].MouseUp? by {
        forall i | 0 <= i < |events[1..]| ensures !events[1..][i].MouseUp? {
          assert events[1..][i] == events[i + 1];
        }
      }
      WhiteBatchWithoutRelease(c, s', events[1..]);
    }
  }

  /** A frame in which the automated side moves: with a `next_turn` that
      flips the side, the batch is then handled on white's turn, so as
      written a close in a batch without a release is lost, while the
      corrected dispatch ends the program exactly when a close comes before
      any reset key. */
  lemma FrameAfterAutomatedMove<B>(c: Collaborators<B>, s: State<B>, events: seq<Event>)
    requires forall t :: c.nextTurn(t) == Flip(t)
    requires s.turn == Black && Candidates(c, s.board) != []
    ensures AiStep(c, s).turn == White
    ensures Frame(c, s, events) == RunEvents(c, AiStep(c, s), events)
    ensures (forall i :: 0 <= i < |events| ==> !events[i].MouseUp?) ==> Frame(c, s, events).Running?
    ensures FrameIntended(c, s, events) == Exited <==> QuitFirst(events)
  {
    AiCommitFlipsTurn(c, s);
    if forall i :: 0 <= i < |events| ==> !events[i].MouseUp? {
      WhiteBatchWithoutRelease(c, AiStep(c, s), events);
    }
  }

  /** A frame in which black is to move and has no candidate: the side to
      move stays black, and the written and corrected dispatch agree, so a
      close that comes before any reset key ends the program. */
  lemma FrameWithoutCandidates<B>(c: Collaborators<B>, s: State<B>, events: seq<Event>)
    requires s.turn == Black && Candidates(c, s.board) == []
    ensures Frame(c, s, events) == FrameIntended(c, s, events)
    ensures Frame(c, s, events) == Exited <==> QuitFirst(events)
  {
  }

  /** The automated side is consulted only when black is to move. */
  lemma AiOnlyOnBlack<B>(c: Collaborators<B>, s: State<B>, events: seq<Event>)
    requires s.turn == White
    ensures Frame(c, s, events) == RunEvents(c, s, events)
  {
  }

  /** Mouse events change nothing unless white is to move. */
  lemma MouseOnlyOnWhite<B>(c: Collaborators<B>, s: State<B>, e: Event)
    requires s.turn == Black
    requires e.MouseDown? || e.MouseUp?
    ensures Handle(c, s, e) == Running(s)
  {
  }

  /** An event moves a piece only as a release on white's turn whose move
      `valid_move` accepted, and then it moves the dragged piece along the
      dragged move and passes the turn exactly once. */
  lemma CommitGate<B>(c: Collaborators<B>, s: State<B>, e: Event, eff: Effect)
    requires eff in EventEffects(c, s, e) && eff.MovePiece?
    ensures s.turn == White && e.MouseUp? && Accepted(c, s, e.row, e.col)
    ensures eff == MovePiece(Some(s.drag.value.piece), DraggedMove(s.drag.value, e.row, e.col))
    ensures Commits(EventEffects(c, s, e)) == Turns(EventEffects(c, s, e)) == 1
  {
    var r := EventEffects(c, s, e);
    if e.MouseUp? && Accepted(c, s, e.row, e.col) {
      var d := s.drag.value;
      var m := DraggedMove(d, e.row, e.col);
      assert r == [MovePiece(Some(d.piece), m), SetTrueEnPassant(d.piece), NextTurn, UndragPiece];
      assert eff in r[1..] ==> eff == SetTrueEnPassant(d.piece) || eff == NextTurn || eff == UndragPiece;
    }
  }

  // ---------------------------------------------------------------------
  // Turn alternation

  /** When `next_turn` flips the side, replaying a log leaves the side to
      move flipped once per `next_turn` call. */
  lemma {:induction false} PerformTurn<B>(c: Collaborators<B>, s: State<B>, effects: seq<Effect>)
    requires forall t :: c.nextTurn(t) == Flip(t)
    ensures Perform(c, s, effects).turn == (if Turns(effects) % 2 == 0 then s.turn else Flip(s.turn))
    decreases |effects|
  {
    if effects != [] {
      assert effects == [effects[0]] + effects[1..];
      assert Turns(effects) == (if effects[0] == NextTurn then 1 else 0) + Turns(effects[1..]);
      PerformTurn(c, Apply(c, s, effects[0]), effects[1..]);
    }
  }

  /** A log with at most one `next_turn` call flips the side to move
      exactly when it has one. */
  lemma AtMostOneTurn<B>(c: Collaborators<B>, s: State<B>, effects: seq<Effect>)
    requires forall t :: c.nextTurn(t) == Flip(t)
    requires Turns(effects) <= 1
    ensures Perform(c, s, effects).turn == (if Turns(effects) == 1 then Flip(s.turn) else s.turn)
  {
    PerformTurn(c, s, effects);
  }

  /** Every committed move, automated or human, passes the turn exactly
      once: with a flipping `next_turn`, the automated step changes the side
      to move exactly when it commits a move. */
  lemma AiCommitFlipsTurn<B>(c: Collaborators<B>, s: State<B>)
    requires forall t :: c.nextTurn(t) == Flip(t)
    ensures Perform(c, s, AiEffects(c, s.board)).turn ==
              (if Commits(AiEffects(c, s.board)) == 1 then Flip(s.turn) else s.turn)
  {
    var r := AiEffects(c, s.board);
    assert Commits(r) == Turns(r) <= 1;
    AtMostOneTurn(c, s, r);
  }

  /** Likewise for an event: it changes the side to move exactly when it
      commits a human move. */
  lemma EventCommitFlipsTurn<B>(c: Collaborators<B>, s: State<B>, e: Event)
    requires forall t :: c.nextTurn(t) == Flip(t)
    ensures Perform(c, s, EventEffects(c, s, e)).turn ==
              (if Commits(EventEffects(c, s, e)) == 1 then Flip(s.turn) else s.turn)
  {
    AtMostOneTurn(c, s, EventEffects(c, s, e));
  }
}
