/** The app around the game state (App.tsx): the selected Hound, the forced
    reveal bought with a Track Hare charge, the human's clicks, the Hare's
    automated turn, and every event the app reacts to as one step function,
    with the invariant that holds in every state the events can reach. */
module App {
  import opened Types
  import opened Boards
  import opened Constants
  import opened Rules
  import opened Game

  /** The game state plus the two pieces of interface state the rules touch:
      the Hound the human has selected, and the one-move forced reveal. */
  datatype Session = Session(game: GameState, selected: Option<int>, forceHareVisible: bool)

  /** A move `(from, to)`: one the human clicks, or one the oracle proposes,
      which may be nonsense. */
  type Move = (int, int)

  /** How the app opens: a saved game when one is stored and readable,
      otherwise a fresh game at level 1. */
  function Open(saved: Option<SavedGame>): (s: Session)
    ensures s.selected.None? && !s.forceHareVisible
    ensures saved.None? ==> s.game == NewGame(1)
    ensures saved.Some? ==> s.game == Load(saved.value)
  {
    FreshGameIsLevelOne();
    match saved
    case None => Session(FreshGame, None, false)
    case Some(g) => Session(Load(g), None, false)
  }

  /** Whether the renderer shows the Hare: visible by the rules or revealed by
      Track Hare. */
  predicate ShownHareVisible(s: Session) {
    s.game.isHareVisible || s.forceHareVisible
  }

  /** Using a Track Hare charge (handleTrackHare): allowed only with a charge
      left and the Hare hidden; it spends exactly one charge and reveals the
      Hare until the next move. Otherwise nothing changes. */
  function TrackHare(s: Session): (r: Session)
    ensures s.game.trackCharges > 0 && !s.game.isHareVisible ==>
      r.game == s.game.(trackCharges := s.game.trackCharges - 1) && r.forceHareVisible && ShownHareVisible(r)
    ensures !(s.game.trackCharges > 0 && !s.game.isHareVisible) ==> r == s
    ensures s.game.trackCharges >= 0 ==> r.game.trackCharges >= 0
    ensures r.selected == s.selected
  {
    if s.game.trackCharges > 0 && !s.game.isHareVisible then
      s.(game := s.game.(trackCharges := s.game.trackCharges - 1), forceHareVisible := true)
    else s
  }

  /** A move as the app applies it (handleMove): the game state moves on, the
      selection is cleared and any forced reveal ends. */
  function ApplyMove(s: Session, from: int, to: int): (r: Session)
    requires IndexOf(s.game.board, from).Some? && IndexOf(s.game.board, to).Some?
    ensures r.game == HandleMove(s.game, from, to)
    ensures r.selected.None? && !r.forceHareVisible
    ensures ShownHareVisible(r) == HareVisible(r.game.board)
  {
    Session(HandleMove(s.game, from, to), None, false)
  }

  /** A click on a piece (handlePieceClick): on the Hounds' turn of a running
      game a Hound becomes the selection and anything else clears it; at other
      times the click is ignored. */
  function PieceClick(s: Session, id: int): (r: Session)
    ensures r.game == s.game && r.forceHareVisible == s.forceHareVisible
    ensures s.game.status == Playing && s.game.currentTurn == Hounds ==>
      (r.selected == Some(id) <==> PieceAt(s.game.board, id) == Some(Hound))
    ensures s.game.status == Playing && s.game.currentTurn == Hounds ==>
      (r.selected.None? <==> PieceAt(s.game.board, id) != Some(Hound))
    ensures !(s.game.status == Playing && s.game.currentTurn == Hounds) ==> r == s
  {
    if s.game.status != Playing || s.game.currentTurn != Hounds then s
    else if PieceAt(s.game.board, id) == Some(Hound) then s.(selected := Some(id))
    else s.(selected := None)
  }

  /** The move a click on node `id` makes, as App.tsx writes it
      (handlePositionClick): any selection whose valid moves include `id`.
      It trusts the selection to still be a Hound on the Hounds' turn, which a
      new game started with a selection in place breaks. */
  function HumanMoveAsWritten(s: Session, id: int): (m: Option<Move>)
    ensures m.Some? ==> s.selected == Some(m.value.0) && m.value.1 == id
    ensures m.Some? ==> id in ValidMoves(s.game.board, m.value.0)
    ensures s.selected.Some? && id in ValidMoves(s.game.board, s.selected.value) ==>
      m == Some((s.selected.value, id))
  {
    match s.selected
    case None => None
    case Some(sel) => if id in ValidMoves(s.game.board, sel) then Some((sel, id)) else None
  }

  /** The move a click on node `id` makes, with the selection checked again:
      only a selected Hound, on the Hounds' turn of a running game, moving to
      one of its valid moves. */
  function HumanMove(s: Session, id: int): (m: Option<Move>)
    ensures m.Some? <==>
      && s.selected.Some?
      && s.game.status == Playing && s.game.currentTurn == Hounds
      && PieceAt(s.game.board, s.selected.value) == Some(Hound)
      && id in ValidMoves(s.game.board, s.selected.value)
    ensures m.Some? ==> m.value == (s.selected.value, id)
  {
    match s.selected
    case None => None
    case Some(sel) =>
      if s.game.status == Playing && s.game.currentTurn == Hounds
         && PieceAt(s.game.board, sel) == Some(Hound) && id in ValidMoves(s.game.board, sel)
      then Some((sel, id))
      else None
  }

  /** The Hare's move as App.tsx picks it: the oracle's answer when its
      destination is valid, otherwise the valid move at index `pick` (the
      source draws it at random). The answer's origin is not checked. */
  function AiChooseMoveAsWritten(hare: int, valid: seq<int>, reply: Option<Move>, pick: nat): (m: Move)
    requires pick < |valid|
    ensures m.1 in valid
    ensures reply.Some? && reply.value.1 in valid ==> m == reply.value
    ensures !(reply.Some? && reply.value.1 in valid) ==> m == (hare, valid[pick])
  {
    match reply
    case Some(move) => if move.1 in valid then move else (hare, valid[pick])
    case None => (hare, valid[pick])
  }

  /** The Hare's move with the oracle's answer fully checked: taken only when
      it starts on the Hare's node and ends on a valid move; any other answer,
      or none, falls back to the valid move at index `pick`. */
  function AiChooseMove(hare: int, valid: seq<int>, reply: Option<Move>, pick: nat): (m: Move)
    requires pick < |valid|
    ensures m.0 == hare && m.1 in valid
    ensures reply.Some? && reply.value.0 == hare && reply.value.1 in valid ==> m == reply.value
    ensures !(reply.Some? && reply.value.0 == hare && reply.value.1 in valid) ==> m.1 == valid[pick]
  {
    match reply
    case Some(move) => if move.0 == hare && move.1 in valid then move else (hare, valid[pick])
    case None => (hare, valid[pick])
  }

  /** The Hare's automated turn (the effect that runs when the Hare is to move
      in a running game): the Hare's valid moves are computed, and if there
      are any one of them is chosen. `pick` stands for the random draw. */
  function AiMove(s: Session, reply: Option<Move>, pick: nat): (m: Option<Move>)
    ensures m.Some? ==> s.game.status == Playing && s.game.currentTurn == Player.Hare
    ensures m.Some? ==> HareNode(s.game.board) == Some(m.value.0)
    ensures m.Some? ==> m.value.1 in ValidMoves(s.game.board, m.value.0)
  {
    if s.game.status != Playing || s.game.currentTurn != Player.Hare then None
    else match HareNode(s.game.board)
      case None => None
      case Some(h) =>
        var valid := ValidMoves(s.game.board, h);
        if |valid| == 0 then None
        else Some(AiChooseMove(h, valid, reply, pick % |valid|))
  }

  /** What the app reacts to. The renderer (Board.tsx) sends a click on an
      occupied node as a piece click and one on an empty node as a position
      click; both events here take any id, so the events are a superset of
      what the renderer sends. */
  datatype Event =
    | NewGameClicked                                  // "New Game": level 1
    | TryAgain                                        // after the Hare wins: same level
    | PostAd                                          // after the Hounds win: next level
    | PieceClicked(id: int)
    | PositionClicked(id: int)
    | OracleAnswered(reply: Option<Move>, pick: nat)
    | UndoClicked                                     // only while Undo is enabled
    | TrackClicked
    | SaveAndReload                                   // save, then reopen the app

  /** The move an event makes, if any. Every such move is a valid move of a
      piece of the side to move, in a running game. */
  function StepMove(s: Session, e: Event): (m: Option<Move>)
    ensures m.Some? ==> s.game.status == Playing
    ensures m.Some? ==> m.value.1 in ValidMoves(s.game.board, m.value.0)
    ensures m.Some? && WellFormed(s.game.board) ==>
      PieceAt(s.game.board, m.value.0) == Some(PieceOf(s.game.currentTurn))
  {
    match e
    case PositionClicked(id) => HumanMove(s, id)
    case OracleAnswered(reply, pick) =>
      var m := AiMove(s, reply, pick);
      if WellFormed(s.game.board) then HareNodeWellFormed(s.game.board); m else m
    case _ => None
  }

  /** The app's reaction to one event. Only a move grows the history, by
      the one new board; a piece click or Track Hare leaves board and history
      alone; and charges are only ever spent, or refilled by a new game. */
  function Step(s: Session, e: Event): (r: Session)
    ensures StepMove(s, e).Some? ==>
      |r.game.history| == |s.game.history| + 1 && r.game.history[..|s.game.history|] == s.game.history
    ensures (e.PieceClicked? || e.TrackClicked?) ==>
      r.game.board == s.game.board && r.game.history == s.game.history
    ensures r.game.trackCharges <= s.game.trackCharges || r.game.trackCharges == InitialTrackCharges
    ensures StepMove(s, e).None? && |s.game.history| >= 1 ==> |r.game.history| <= |s.game.history|
  {
    match StepMove(s, e)
    case Some(m) =>
      MoveSlotsExist(s.game.board, m.0, m.1);
      ApplyMove(s, m.0, m.1)
    case None =>
      match e
      case NewGameClicked => s.(game := NewGame(1))
      case TryAgain => if s.game.status == HareWin then s.(game := NewGame(s.game.level)) else s
      case PostAd => if s.game.status == HoundsWin then s.(game := NewGame(NextLevel(s.game.level))) else s
      case PieceClicked(id) => PieceClick(s, id)
      case UndoClicked =>
        if CanUndo(s.game) then s.(game := HandleUndo(s.game), selected := None) else s
      case TrackClicked => TrackHare(s)
      case SaveAndReload => Open(Some(Save(s.game)))
      case _ => s
  }

  /** The Hare's automated turn as App.tsx schedules it: the move is chosen
      on the session `asked` that the effect saw, and handleMove applies it,
      after the timeout and the oracle's answer, to the session `now` current
      when the answer lands; "New Game" may have been clicked in between.
      A move naming a node without a slot would throw in the source; here it
      leaves the session as it is. The move is chosen with the checked
      `AiMove`, so this is the code's timing with the corrected choice: the
      race it shows does not depend on the unchecked origin. */
  function LateAiTurn(asked: Session, now: Session, reply: Option<Move>, pick: nat): (r: Session)
    ensures AiMove(asked, reply, pick).None? ==> r == now
    ensures var m := AiMove(asked, reply, pick);
      m.Some? && IndexOf(now.game.board, m.value.0).Some? && IndexOf(now.game.board, m.value.1).Some? ==>
        r == ApplyMove(now, m.value.0, m.value.1)
  {
    match AiMove(asked, reply, pick)
    case None => now
    case Some(m) =>
      MoveSlotsExist(asked.game.board, m.0, m.1);
      if IndexOf(now.game.board, m.0).Some? && IndexOf(now.game.board, m.1).Some?
      then ApplyMove(now, m.0, m.1)
      else now
  }

  /** With no event between the question and the answer, the late turn is
      the model's own step: the answer applied to the session it was
      computed on. */
  lemma LateAiTurnOnTime(s: Session, reply: Option<Move>, pick: nat)
    ensures LateAiTurn(s, s, reply, pick) == Step(s, OracleAnswered(reply, pick))
  {
    match AiMove(s, reply, pick)
    case None =>
    case Some(m) =>
      MoveSlotsExist(s.game.board, m.0, m.1);
  }

  /** A valid move starts and ends on nodes that have slots. */
  lemma MoveSlotsExist(b: Board, from: int, to: int)
    requires to in ValidMoves(b, from)
    ensures IndexOf(b, from).Some? && IndexOf(b, to).Some?
  {
  }

  /** The session after a sequence of events. */
  function Run(s: Session, events: seq<Event>): Session
    decreases |events|
  {
    if |events| == 0 then s else Run(Step(s, events[0]), events[1..])
  }

  /** The Hare is to move and has somewhere to go. */
  predicate HareHasMove(b: Board) {
    HareNode(b).Some? && |ValidMoves(b, HareNode(b).value)| > 0
  }

  /** The status agrees with the board: a running game has the Hare off its
      goal and, on its turn, able to move; a Hare win has the Hare on its goal
      with the Hounds to move; a Hounds win has the Hare to move and stuck. */
  predicate StatusAgrees(g: GameState) {
    match g.status
    case Playing => HareNode(g.board) != Some(HareGoal) && (g.currentTurn == Player.Hare ==> HareHasMove(g.board))
    case HareWin => HareNode(g.board) == Some(HareGoal) && g.currentTurn == Hounds
    case HoundsWin => g.currentTurn == Player.Hare && HareNode(g.board) != Some(HareGoal) && !HareHasMove(g.board)
    case Paused => false
  }

  /** Every board of a game: well formed, with one Hare, three Hounds and
      seven empty slots. */
  predicate GoodBoard(b: Board) {
    WellFormed(b) && HasStartingPieces(b)
  }

  /** The history of a game: it starts from the starting board, ends with the
      current board, holds only good boards, and the Hare was off its goal on
      every board but the last (play went on from each of them). */
  predicate HistoryAgrees(g: GameState) {
    HistoryOk(g.history, g.board)
  }

  predicate HistoryOk(h: seq<Board>, board: Board) {
    && |h| >= 1
    && h[0] == InitialBoard
    && h[|h| - 1] == board
    && Played(h)
  }

  /** The boards of a stretch of play, built up one board at a time: each
      board is good, and each board that has a successor has the Hare off its
      goal. */
  predicate Played(h: seq<Board>)
    decreases |h|
  {
    |h| == 0 ||
      (&& GoodBoard(h[|h| - 1])
       && Played(h[..|h| - 1])
       && (|h| >= 2 ==> HareNode(h[|h| - 2]) != Some(HareGoal)))
  }

  /** Every board of a stretch of play is good, and every board but the last
      has the Hare off its goal. */
  lemma {:induction false} PlayedBoards(h: seq<Board>, k: int)
    requires Played(h) && 0 <= k < |h|
    ensures GoodBoard(h[k])
    ensures k < |h| - 1 ==> HareNode(h[k]) != Some(HareGoal)
    decreases |h|
  {
    if k < |h| - 1 {
      var p := h[..|h| - 1];
      assert p[k] == h[k];
      PlayedBoards(p, k);
    }
  }

  /** Every prefix of a stretch of play is one. */
  lemma {:induction false} PlayedPrefix(h: seq<Board>, m: int)
    requires Played(h) && 0 <= m <= |h|
    ensures Played(h[..m])
    decreases |h|
  {
    if m < |h| {
      var p := h[..|h| - 1];
      assert p[..m] == h[..m];
      PlayedPrefix(p, m);
    } else {
      assert h[..m] == h;
    }
  }

  /** The Hounds move on odd history lengths, the Hare on even ones. */
  predicate TurnAgrees(g: GameState) {
    g.currentTurn == Hounds <==> |g.history| % 2 == 1
  }

  /** The level is on the ladder and the difficulty is the level's. */
  predicate LevelAgrees(g: GameState) {
    1 <= g.level <= TotalLevels && g.difficulty == DifficultyFor(g.level)
  }

  /** The visibility flag is the computed one, except on the opening board of
      a new game, which marks the Hare visible. */
  predicate VisibilityAgrees(g: GameState) {
    g.isHareVisible == HareVisible(g.board) || (|g.history| == 1 && g.isHareVisible)
  }

  /** What holds of the game in every state the app can reach. */
  predicate GameInv(g: GameState) {
    && GoodBoard(g.board)
    && HistoryAgrees(g)
    && TurnAgrees(g)
    && StatusAgrees(g)
    && LevelAgrees(g)
    && 0 <= g.trackCharges <= InitialTrackCharges
    && VisibilityAgrees(g)
  }

  predicate Inv(s: Session) {
    GameInv(s.game)
  }

  /** The app as it opens with nothing saved. */
  const Start: Session := Session(FreshGame, None, false)

  /** Two slots holding the same occupant count twice. */
  lemma TwoSlotsCount(o: seq<Option<PieceType>>, lo: int, hi: int)
    requires 0 <= lo < hi < |o| && o[lo] == o[hi]
    ensures multiset(o)[o[lo]] >= 2
  {
    assert o == o[..hi] + o[hi..];
    assert o[..hi][lo] == o[lo];
    assert o[hi..][0] == o[lo];
    assert multiset(o)[o[lo]] == multiset(o[..hi])[o[lo]] + multiset(o[hi..])[o[lo]];
  }

  /** There is exactly one Hare on a good board. */
  lemma HareUnique(b: Board, i: int, j: int)
    requires GoodBoard(b)
    requires 0 <= i < |b| && 0 <= j < |b|
    requires b[i].piece == Some(PieceType.Hare) && b[j].piece == Some(PieceType.Hare)
    ensures i == j
  {
    var lo, hi := if i < j then i else j, if i < j then j else i;
    if lo < hi {
      TwoSlotsCount(Occupants(b), lo, hi);
    }
  }

  /** A good board has its Hare on a node, and that node holds the only Hare. */
  lemma HareOnGoodBoard(b: Board)
    requires GoodBoard(b)
    ensures HareNode(b).Some? && IsNode(HareNode(b).value)
    ensures b[HareNode(b).value].piece == Some(PieceType.Hare)
    ensures forall k :: 0 <= k < |b| && b[k].piece == Some(PieceType.Hare) ==> k == HareNode(b).value
  {
    assert Some(PieceType.Hare) in multiset(Occupants(b));
    var k :| 0 <= k < |b| && Occupants(b)[k] == Some(PieceType.Hare);
    HareNodeWellFormed(b);
    forall k' | 0 <= k' < |b| && b[k'].piece == Some(PieceType.Hare)
      ensures k' == HareNode(b).value
    {
      HareUnique(b, k', HareNode(b).value);
    }
  }

  /** A valid move on a good board leads to a good board, where the moved
      piece stands on the destination: the Hare's node follows a Hare's move
      and stays put under a Hound's. */
  lemma MoveKeepsGoodBoard(b: Board, from: int, to: int)
    requires GoodBoard(b)
    requires to in ValidMoves(b, from)
    ensures GoodBoard(MovePiece(b, from, to))
    ensures b[from].piece == Some(PieceType.Hare) ==> HareNode(MovePiece(b, from, to)) == Some(to)
    ensures b[from].piece == Some(Hound) ==> HareNode(MovePiece(b, from, to)) == HareNode(b)
  {
    MovesEnterEmptyNodes(b, from, to);
    var r := MovePiece(b, from, to);
    MoveKeepsOccupants(b, from, to);
    HareOnGoodBoard(b);
    HareOnGoodBoard(r);
    var h := HareNode(b).value;
    if b[from].piece == Some(PieceType.Hare) {
      assert r[to].piece == Some(PieceType.Hare);
    } else if b[from].piece == Some(Hound) {
      assert h != from && h != to;
      assert r[h].piece == Some(PieceType.Hare);
    }
  }

  /** Passing the turn along with one more board keeps turn and parity in step. */
  lemma TurnParityFlips(n: nat, t: Player, t': Player)
    requires t == Hounds <==> n % 2 == 1
    requires t' == Opponent(t)
    ensures t' == Hounds <==> (n + 1) % 2 == 1
  {
  }

  /** A legal move keeps turn and history length in step. */
  lemma MoveKeepsTurn(g: GameState, from: int, to: int)
    requires TurnAgrees(g)
    requires IndexOf(g.board, from).Some? && IndexOf(g.board, to).Some?
    ensures TurnAgrees(HandleMove(g, from, to))
  {
    var r := HandleMove(g, from, to);
    TurnParityFlips(|g.history|, g.currentTurn, r.currentTurn);
  }

  /** A legal move from a board with the Hare off its goal keeps the history
      in agreement: one good board more, and the board it left had the Hare
      off its goal. */
  lemma MoveKeepsHistory(g: GameState, from: int, to: int)
    requires GoodBoard(g.board) && HistoryAgrees(g)
    requires HareNode(g.board) != Some(HareGoal)
    requires to in ValidMoves(g.board, from)
    ensures HistoryAgrees(HandleMove(g, from, to))
  {
    var r := HandleMove(g, from, to);
    MoveKeepsGoodBoard(g.board, from, to);
    HistoryGrows(g.history, g.board, r.board);
  }

  /** Appending a good board to a history whose last board has the Hare off
      its goal gives a history ending in the new board. */
  lemma HistoryGrows(h: seq<Board>, last: Board, b: Board)
    requires HistoryOk(h, last) && GoodBoard(b)
    requires HareNode(last) != Some(HareGoal)
    ensures HistoryOk(h + [b], b)
  {
    var h' := h + [b];
    assert h'[..|h'| - 1] == h;
    assert h'[0] == h[0] && h'[|h'| - 2] == last;
  }

  /** A legal move of the side to move in a running game leaves a status that
      agrees with the new board: the Hare cannot already stand on its goal,
      so only its own move can bring it there. */
  lemma MoveKeepsStatus(g: GameState, from: int, to: int)
    requires GameInv(g) && g.status == Playing
    requires to in ValidMoves(g.board, from)
    requires PieceAt(g.board, from) == Some(PieceOf(g.currentTurn))
    ensures StatusAgrees(HandleMove(g, from, to))
  {
    var r := HandleMove(g, from, to);
    MoveKeepsGoodBoard(g.board, from, to);
    ReadWellFormed(g.board, from);
    HareOnGoodBoard(r.board);
  }

  /** A valid move of a piece of the side to move, in a running game, keeps
      the invariant. */
  lemma LegalMoveKeepsInv(s: Session, from: int, to: int)
    requires Inv(s) && s.game.status == Playing
    requires to in ValidMoves(s.game.board, from)
    requires PieceAt(s.game.board, from) == Some(PieceOf(s.game.currentTurn))
    ensures Inv(ApplyMove(s, from, to))
  {
    MoveKeepsGoodBoard(s.game.board, from, to);
    MoveKeepsHistory(s.game, from, to);
    MoveKeepsTurn(s.game, from, to);
    MoveKeepsStatus(s.game, from, to);
  }

  /** A move made by an event keeps the invariant. */
  lemma ApplyMoveKeepsInv(s: Session, e: Event)
    requires Inv(s)
    requires StepMove(s, e).Some?
    ensures Inv(Step(s, e))
  {
    var m := StepMove(s, e).value;
    LegalMoveKeepsInv(s, m.0, m.1);
  }

  /** Undo keeps the invariant: the restored board comes from the history,
      where the game was running, and the history keeps its odd length. */
  lemma UndoKeepsInv(s: Session)
    requires Inv(s) && CanUndo(s.game)
    ensures Inv(s.(game := HandleUndo(s.game), selected := None))
  {
    UndoGameInv(s.game);
  }

  /** The game-level half of `UndoKeepsInv`. */
  lemma UndoGameInv(g: GameState)
    requires GameInv(g) && CanUndo(g)
    ensures GameInv(HandleUndo(g))
  {
    UndoRestores(g, g.history[..|g.history| - 2], g.history[|g.history| - 3]);
  }

  /** Going back to an earlier board of a good history, with an odd number
      of boards left, gives a running game with the Hounds to move. */
  lemma UndoRestores(g: GameState, h: seq<Board>, last: Board)
    requires HistoryOk(g.history, g.board) && |g.history| >= 3 && |g.history| % 2 == 1
    requires LevelAgrees(g) && 0 <= g.trackCharges <= InitialTrackCharges
    requires g.currentTurn == Hounds
    requires h == g.history[..|g.history| - 2] && last == g.history[|g.history| - 3]
    ensures HandleUndo(g) == g.(board := last, history := h, currentTurn := Hounds,
                                status := Playing, isHareVisible := HareVisible(last))
    ensures GameInv(HandleUndo(g))
  {
    HistoryPrefixOk(g.history, g.board, |g.history| - 2);
  }

  /** Every non-empty prefix of a good history is a good history ending with
      its own last board, and that board is good and, when it is not the
      whole history, has the Hare off its goal. */
  lemma HistoryPrefixOk(h: seq<Board>, board: Board, m: int)
    requires HistoryOk(h, board) && 1 <= m <= |h|
    ensures HistoryOk(h[..m], h[m - 1])
    ensures GoodBoard(h[m - 1])
    ensures m < |h| ==> HareNode(h[m - 1]) != Some(HareGoal)
  {
    PlayedPrefix(h, m);
    PlayedBoards(h, m - 1);
  }

  /** A new game satisfies the invariant at any level of the ladder. */
  lemma NewGameInv(s: Session, level: int)
    requires 1 <= level <= TotalLevels
    ensures Inv(s.(game := NewGame(level)))
  {
    InitialBoardWellFormed();
    InitialBoardPieces();
    assert HareNode(InitialBoard) == Some(0);
  }

  /** Every event keeps the invariant. */
  lemma StepKeepsInv(s: Session, e: Event)
    requires Inv(s)
    ensures Inv(Step(s, e))
  {
    if StepMove(s, e).Some? {
      ApplyMoveKeepsInv(s, e);
    } else {
      match e
      case NewGameClicked => NewGameInv(s, 1);
      case TryAgain => NewGameInv(s, s.game.level);
      case PostAd => NewGameInv(s, NextLevel(s.game.level));
      case UndoClicked =>
        if CanUndo(s.game) {
          UndoKeepsInv(s);
        }
      case SaveAndReload => LoadSaveRoundTrip(s.game);
      case _ =>
    }
  }

  /** The invariant holds after any sequence of events. */
  lemma {:induction false} RunKeepsInv(s: Session, events: seq<Event>)
    requires Inv(s)
    ensures Inv(Run(s, events))
    decreases |events|
  {
    if |events| > 0 {
      StepKeepsInv(s, events[0]);
      RunKeepsInv(Step(s, events[0]), events[1..]);
    }
  }

  /** The app opens in a state satisfying the invariant. */
  lemma StartInv()
    ensures Inv(Start)
  {
    FreshGameIsLevelOne();
    NewGameInv(Start, 1);
  }

  /** Every state reachable from opening the app satisfies the invariant. */
  lemma Reachable(events: seq<Event>)
    ensures Inv(Run(Start, events))
  {
    StartInv();
    RunKeepsInv(Start, events);
  }

  /** What the invariant says in plain terms: one Hare, three Hounds and seven
      empty slots on eleven well-formed slots; a non-empty history ending in
      the board; a charge count between 0 and 3; a status other than Paused;
      and a difficulty that matches the level. */
  lemma InvFacts(s: Session)
    requires Inv(s)
    ensures var g := s.game;
      && WellFormed(g.board)
      && multiset(Occupants(g.board)) == StartingPieces
      && |g.history| >= 1 && g.history[|g.history| - 1] == g.board
      && 0 <= g.trackCharges <= InitialTrackCharges
      && g.status != Paused
      && 1 <= g.level <= TotalLevels && g.difficulty == DifficultyFor(g.level)
  {
    StartingPiecesCounts(s.game.board);
  }

  /** In a reachable state where the Hare is to move in a running game, the
      Hare always has a valid move, so its automated turn always moves. */
  lemma HareTurnAlwaysMoves(s: Session, reply: Option<Move>, pick: nat)
    requires Inv(s)
    requires s.game.status == Playing && s.game.currentTurn == Player.Hare
    ensures AiMove(s, reply, pick).Some?
  {
  }

  /** Undo in a reachable state only changes the board, history, status and
      visibility: the Hounds were already to move. */
  lemma UndoKeepsTurn(s: Session)
    requires Inv(s) && CanUndo(s.game)
    ensures HandleUndo(s.game).currentTurn == s.game.currentTurn
    ensures |HandleUndo(s.game).history| % 2 == 1
  {
  }

  /** The human's click can move the Hare, as App.tsx writes it: with a
      Hound selected on node 0 in a running game, "New Game" resets the board
      (the Hare back on node 0) but keeps the selection, and a click on node 1
      then moves the Hare, on the Hounds' turn. The checked click refuses. */
  lemma HumanCanMoveHareAsWritten(s: Session)
    requires Inv(s) && s.game.status == Playing && s.game.currentTurn == Hounds
    requires s.game.board[0].piece == Some(Hound)
    ensures var s' := Step(Step(s, PieceClicked(0)), NewGameClicked);
      && s'.selected == Some(0) && s'.game.currentTurn == Hounds
      && HumanMoveAsWritten(s', 1) == Some((0, 1))
      && PieceAt(s'.game.board, 0) == Some(PieceType.Hare)
      && HumanMove(s', 1).None?
  {
    SelectHound(s, 0);
    var s1 := s.(selected := Some(0));
    assert StepMove(s1, NewGameClicked).None?;
    StaleSelectionMovesHare(s1.(game := NewGame(1)));
  }

  /** On a new game with node 0 still selected, a click on node 1 moves the
      Hare as App.tsx writes it, and is refused by the checked click. */
  lemma StaleSelectionMovesHare(s: Session)
    requires s.game == NewGame(1) && s.selected == Some(0)
    ensures HumanMoveAsWritten(s, 1) == Some((0, 1))
    ensures PieceAt(s.game.board, 0) == Some(PieceType.Hare)
    ensures HumanMove(s, 1).None?
  {
    InitialBoardWellFormed();
    ReadWellFormed(InitialBoard, 0);
    ReadWellFormed(InitialBoard, 1);
    assert Adjacent(0, 1);
  }

  /** With the Hounds to move and the Hare off its goal, a reachable game is
      still running. */
  lemma HoundsToMoveIsPlaying(g: GameState)
    requires GameInv(g) && g.currentTurn == Hounds
    requires g.board[HareGoal].piece != Some(PieceType.Hare)
    ensures g.status == Playing
  {
    HareOnGoodBoard(g.board);
  }

  /** Running two event sequences one after the other. */
  lemma {:induction false} RunAppend(s: Session, a: seq<Event>, b: seq<Event>)
    ensures Run(s, a + b) == Run(Run(s, a), b)
    decreases |a|
  {
    if |a| > 0 {
      var s' := Step(s, a[0]);
      assert (a + b)[0] == a[0] && (a + b)[1..] == a[1..] + b;
      assert Run(s, a + b) == Run(s', a[1..] + b);
      assert Run(s, a) == Run(s', a[1..]);
      RunAppend(s', a[1..], b);
    } else {
      assert a + b == b;
    }
  }

  /** One event, or two, as a run. */
  lemma RunShort(s: Session, e1: Event, e2: Event)
    ensures Run(s, [e1]) == Step(s, e1)
    ensures Run(s, [e1, e2]) == Step(Step(s, e1), e2)
  {
    assert [e1, e2][1..] == [e2];
    assert Run(Step(s, e1), [e2]) == Step(Step(s, e1), e2);
  }

  /** On the Hounds' turn of a running game, clicking a Hound selects it. */
  lemma SelectHound(s: Session, f: int)
    requires WellFormed(s.game.board) && s.game.status == Playing && s.game.currentTurn == Hounds
    requires IsNode(f) && s.game.board[f].piece == Some(Hound)
    ensures Step(s, PieceClicked(f)) == s.(selected := Some(f))
  {
    ReadWellFormed(s.game.board, f);
    assert StepMove(s, PieceClicked(f)).None?;
  }

  /** With a Hound selected, clicking an empty neighbour it may enter makes
      that move. */
  lemma MoveSelected(s: Session, f: int, t: int)
    requires WellFormed(s.game.board) && s.game.status == Playing && s.game.currentTurn == Hounds
    requires s.selected == Some(f)
    requires IsNode(f) && IsNode(t) && Adjacent(f, t) && HoundMayEnter(f, t)
    requires s.game.board[f].piece == Some(Hound) && s.game.board[t].piece == None
    ensures PieceAt(s.game.board, f) == Some(Hound) && t in ValidMoves(s.game.board, f)
    ensures Step(s, PositionClicked(t)) == ApplyMove(s, f, t)
  {
    ReadWellFormed(s.game.board, f);
    ReadWellFormed(s.game.board, t);
    assert HumanMove(s, t) == Some((f, t));
  }

  /** An oracle answer naming the Hare's node and one of its valid moves
      makes that move. */
  lemma HareAnswers(s: Session, f: int, t: int)
    requires s.game.status == Playing && s.game.currentTurn == Player.Hare
    requires HareNode(s.game.board) == Some(f) && t in ValidMoves(s.game.board, f)
    ensures Step(s, OracleAnswered(Some((f, t)), 0)) == ApplyMove(s, f, t)
  {
    var valid := ValidMoves(s.game.board, f);
    assert AiChooseMove(f, valid, Some((f, t)), 0 % |valid|) == (f, t);
    assert StepMove(s, OracleAnswered(Some((f, t)), 0)) == Some((f, t));
  }

  /** The Hare stands on `hare`, Hounds on the nodes `hounds`, and every other
      node is empty. */
  predicate Placed(b: Board, hare: int, hounds: set<int>)
    requires |b| == NodeCount
  {
    forall k :: 0 <= k < NodeCount ==>
      b[k].piece == (if k == hare then Some(PieceType.Hare) else if k in hounds then Some(Hound) else None)
  }

  /** Moving the Hare onto an empty node of a placement moves it in the
      placement. */
  lemma MoveHarePlaced(b: Board, hare: int, hounds: set<int>, t: int)
    requires WellFormed(b) && Placed(b, hare, hounds) && hare !in hounds
    requires IsNode(hare) && IsNode(t) && t != hare && t !in hounds
    ensures Placed(MovePiece(b, hare, t), t, hounds)
  {
    IndexOfWellFormed(b, hare);
    IndexOfWellFormed(b, t);
  }

  /** Moving a Hound onto an empty node of a placement moves it in the
      placement: the Hounds then stand on `after`. */
  lemma MoveHoundPlaced(b: Board, hare: int, hounds: set<int>, f: int, t: int, after: set<int>)
    requires WellFormed(b) && Placed(b, hare, hounds) && hare !in hounds
    requires IsNode(f) && f in hounds && IsNode(t) && t != hare && t !in hounds
    requires after == hounds - {f} + {t}
    ensures Placed(MovePiece(b, f, t), hare, after) && hare !in after
  {
    IndexOfWellFormed(b, f);
    IndexOfWellFormed(b, t);
  }

  /** A reachable session with the Hare on `hare`, Hounds on `hounds`, and
      `turn` to move. */
  predicate Position(s: Session, hare: int, hounds: set<int>, turn: Player) {
    && Inv(s) && s.game.currentTurn == turn && |s.game.board| == NodeCount
    && Placed(s.game.board, hare, hounds) && IsNode(hare) && hare !in hounds
  }

  /** The human's half of a round: the Hound on `hf` moves to `ht`. */
  lemma HoundHalf(s: Session, hare: int, hounds: set<int>, hf: int, ht: int, after: set<int>)
    requires Position(s, hare, hounds, Hounds) && hare != HareGoal
    requires IsNode(hf) && hf in hounds
    requires IsNode(ht) && ht != hare && ht !in hounds && Adjacent(hf, ht) && HoundMayEnter(hf, ht)
    requires after == hounds - {hf} + {ht}
    ensures Position(Run(s, [PieceClicked(hf), PositionClicked(ht)]), hare, after, Player.Hare)
  {
    HoundMoveLegal(s, hare, hounds, hf, ht);
    HoundMove(s, hare, hounds, hf, ht, after);
    HoundClicks(s, hf, ht);
  }

  /** The Hound's move itself, in a running game with the Hounds to move. */
  lemma HoundMove(s: Session, hare: int, hounds: set<int>, hf: int, ht: int, after: set<int>)
    requires Position(s, hare, hounds, Hounds) && hare != HareGoal
    requires IsNode(hf) && hf in hounds
    requires IsNode(ht) && ht != hare && ht !in hounds && Adjacent(hf, ht) && HoundMayEnter(hf, ht)
    requires after == hounds - {hf} + {ht}
    ensures Position(ApplyMove(s, hf, ht), hare, after, Player.Hare)
  {
    HoundMoveLegal(s, hare, hounds, hf, ht);
    LegalMoveKeepsInv(s, hf, ht);
    MoveHoundPlaced(s.game.board, hare, hounds, hf, ht, after);
  }

  /** In such a position the Hound's move is legal and the game is on. */
  lemma HoundMoveLegal(s: Session, hare: int, hounds: set<int>, hf: int, ht: int)
    requires Position(s, hare, hounds, Hounds) && hare != HareGoal
    requires IsNode(hf) && hf in hounds
    requires IsNode(ht) && ht != hare && ht !in hounds && Adjacent(hf, ht) && HoundMayEnter(hf, ht)
    ensures s.game.status == Playing && s.game.board[hf].piece == Some(Hound) && s.game.board[ht].piece == None
    ensures PieceAt(s.game.board, hf) == Some(Hound) && ht in ValidMoves(s.game.board, hf)
  {
    var b := s.game.board;
    assert b[hf].piece == Some(Hound) && b[ht].piece == None && b[HareGoal].piece != Some(PieceType.Hare);
    HoundsToMoveIsPlaying(s.game);
    ReadWellFormed(b, hf);
    ReadWellFormed(b, ht);
  }

  /** Clicking a Hound and then an empty neighbour it may enter makes that
      move. */
  lemma HoundClicks(s: Session, f: int, t: int)
    requires WellFormed(s.game.board) && s.game.status == Playing && s.game.currentTurn == Hounds
    requires IsNode(f) && IsNode(t) && Adjacent(f, t) && HoundMayEnter(f, t)
    requires s.game.board[f].piece == Some(Hound) && s.game.board[t].piece == None
    ensures PieceAt(s.game.board, f) == Some(Hound) && t in ValidMoves(s.game.board, f)
    ensures Run(s, [PieceClicked(f), PositionClicked(t)]) == ApplyMove(s, f, t)
  {
    SelectHound(s, f);
    MoveSelected(s.(selected := Some(f)), f, t);
    RunShort(s, PieceClicked(f), PositionClicked(t));
  }

  /** The oracle's half of a round: the Hare moves from `hare` to `rt`. */
  lemma HareHalf(s: Session, hare: int, hounds: set<int>, rt: int)
    requires Position(s, hare, hounds, Player.Hare)
    requires IsNode(rt) && Adjacent(hare, rt) && rt != hare && rt !in hounds
    ensures Position(Run(s, [OracleAnswered(Some((hare, rt)), 0)]), rt, hounds, Hounds)
  {
    var b := s.game.board;
    assert b[hare].piece == Some(PieceType.Hare) && b[rt].piece == None;
    assert HareNode(b) == Some(hare) && rt in ValidMoves(b, hare) by {
      HareOnGoodBoard(b);
      ReadWellFormed(b, hare);
      ReadWellFormed(b, rt);
    }
    assert s.game.status == Playing by {
      assert HareHasMove(b);
    }
    HareAnswers(s, hare, rt);
    RunShort(s, OracleAnswered(Some((hare, rt)), 0), OracleAnswered(Some((hare, rt)), 0));
    LegalMoveKeepsInv(s, hare, rt);
    MoveHarePlaced(b, hare, hounds, rt);
  }

  /** A full round: the Hound on `hf` moves to `ht`, then the Hare moves to
      `rt`; the Hounds then stand on `after`. */
  lemma Round(s: Session, hare: int, hounds: set<int>, hf: int, ht: int, rt: int, after: set<int>)
    requires Position(s, hare, hounds, Hounds) && hare != HareGoal
    requires IsNode(hf) && hf in hounds
    requires IsNode(ht) && ht != hare && ht !in hounds && Adjacent(hf, ht) && HoundMayEnter(hf, ht)
    requires after == hounds - {hf} + {ht}
    requires IsNode(rt) && Adjacent(hare, rt) && rt != hare && rt !in after
    ensures Position(Run(Run(s, [PieceClicked(hf), PositionClicked(ht)]), [OracleAnswered(Some((hare, rt)), 0)]),
                     rt, after, Hounds)
  {
    HoundHalf(s, hare, hounds, hf, ht, after);
    HareHalf(Run(s, [PieceClicked(hf), PositionClicked(ht)]), hare, after, rt);
  }

  /** "New Game" from any session sets up the starting placement with the
      Hounds to move. */
  lemma NewGamePlaced(s: Session)
    ensures Position(Step(s, NewGameClicked), 0, {8, 9, 10}, Hounds)
  {
    NewGameInv(s, 1);
    forall k | 0 <= k < NodeCount
      ensures InitialBoard[k].piece ==
        if k == 0 then Some(PieceType.Hare) else if k in {8, 9, 10} then Some(Hound) else None
    {
      InitialBoardPlacement(k);
    }
  }

  /** A Hound can reach node 0: from any session, "New Game" and then the
      walk in which the Hounds go 8-5-2-0 while the Hare answers 0-3-6-5
      leave a Hound on node 0 in a running game with the Hounds to move. */
  lemma HoundReachesNodeZero(s: Session)
    ensures var r := Run(s, [NewGameClicked] + HoundsToNodeZero);
      && Inv(r) && r.game.status == Playing && r.game.currentTurn == Hounds
      && r.game.board[0].piece == Some(Hound)
  {
    var h1, a1 := [PieceClicked(8), PositionClicked(5)], [OracleAnswered(Some((0, 3)), 0)];
    var h2, a2 := [PieceClicked(5), PositionClicked(2)], [OracleAnswered(Some((3, 6)), 0)];
    var h3, a3 := [PieceClicked(2), PositionClicked(0)], [OracleAnswered(Some((6, 5)), 0)];
    NewGamePlaced(s);
    var s0 := Step(s, NewGameClicked);
    FirstRound(s0);
    var s2 := Run(Run(s0, h1), a1);
    SecondRound(s2);
    var s4 := Run(Run(s2, h2), a2);
    ThirdRound(s4);
    var s6 := Run(Run(s4, h3), a3);
    assert Run(s, [NewGameClicked] + HoundsToNodeZero) == s6 by {
      WalkSplit();
      RunAppend(s, [NewGameClicked], h1 + (a1 + (h2 + (a2 + (h3 + a3)))));
      RunShort(s, NewGameClicked, NewGameClicked);
      RunAppend(s0, h1, a1 + (h2 + (a2 + (h3 + a3))));
      RunAppend(Run(s0, h1), a1, h2 + (a2 + (h3 + a3)));
      RunAppend(s2, h2, a2 + (h3 + a3));
      RunAppend(Run(s2, h2), a2, h3 + a3);
      RunAppend(s4, h3, a3);
    }
  }

  /** The Hound on 8 goes to 5 and the Hare answers 0-3. */
  lemma FirstRound(s: Session)
    requires Position(s, 0, {8, 9, 10}, Hounds)
    ensures Position(Run(Run(s, [PieceClicked(8), PositionClicked(5)]), [OracleAnswered(Some((0, 3)), 0)]),
                     3, {5, 9, 10}, Hounds)
  {
    WalkEdges();
    Round(s, 0, {8, 9, 10}, 8, 5, 3, {5, 9, 10});
  }

  /** The Hound on 5 goes to 2 and the Hare answers 3-6. */
  lemma SecondRound(s: Session)
    requires Position(s, 3, {5, 9, 10}, Hounds)
    ensures Position(Run(Run(s, [PieceClicked(5), PositionClicked(2)]), [OracleAnswered(Some((3, 6)), 0)]),
                     6, {2, 9, 10}, Hounds)
  {
    WalkEdges();
    Round(s, 3, {5, 9, 10}, 5, 2, 6, {2, 9, 10});
  }

  /** The Hound on 2 goes to 0 and the Hare answers 6-5: a Hound now stands
      on node 0, the Hounds are to move and the game is on. */
  lemma ThirdRound(s: Session)
    requires Position(s, 6, {2, 9, 10}, Hounds)
    ensures var r := Run(Run(s, [PieceClicked(2), PositionClicked(0)]), [OracleAnswered(Some((6, 5)), 0)]);
      && Inv(r) && r.game.status == Playing && r.game.currentTurn == Hounds
      && r.game.board[0].piece == Some(Hound)
  {
    WalkEdges();
    Round(s, 6, {2, 9, 10}, 2, 0, 5, {0, 9, 10});
    var r := Run(Run(s, [PieceClicked(2), PositionClicked(0)]), [OracleAnswered(Some((6, 5)), 0)]);
    assert r.game.board[HareGoal].piece == Some(Hound) && r.game.board[0].piece == Some(Hound);
    HoundsToMoveIsPlaying(r.game);
  }

  /** The edges the walk uses, and the sets of Hound nodes along it. */
  lemma WalkEdges()
    ensures Adjacent(8, 5) && Adjacent(0, 3) && Adjacent(5, 2) && Adjacent(3, 6)
    ensures Adjacent(2, 0) && Adjacent(6, 5)
    ensures {5, 9, 10} == {8, 9, 10} - {8} + {5}
    ensures {2, 9, 10} == {5, 9, 10} - {5} + {2}
    ensures {0, 9, 10} == {2, 9, 10} - {2} + {0}
  {
  }

  /** The walk, round by round. */
  lemma WalkSplit()
    ensures HoundsToNodeZero ==
      [PieceClicked(8), PositionClicked(5)] + ([OracleAnswered(Some((0, 3)), 0)] +
      ([PieceClicked(5), PositionClicked(2)] + ([OracleAnswered(Some((3, 6)), 0)] +
      ([PieceClicked(2), PositionClicked(0)] + [OracleAnswered(Some((6, 5)), 0)]))))
  {
  }

  /** The human's and the oracle's moves that bring a Hound to node 0. */
  const HoundsToNodeZero: seq<Event> := [
    PieceClicked(8), PositionClicked(5), OracleAnswered(Some((0, 3)), 0),
    PieceClicked(5), PositionClicked(2), OracleAnswered(Some((3, 6)), 0),
    PieceClicked(2), PositionClicked(0), OracleAnswered(Some((6, 5)), 0)
  ]

  /** "New Game" and then the Hound on 10 to 7: the Hare, on node 0, is to
      move, with Hounds on 7, 8 and 9. */
  lemma HoundsOnSevenToNine(s: Session)
    ensures Position(Run(s, [NewGameClicked] + [PieceClicked(10), PositionClicked(7)]), 0, {7, 8, 9}, Player.Hare)
  {
    NewGamePlaced(s);
    var s0 := Step(s, NewGameClicked);
    assert Adjacent(10, 7) && {7, 8, 9} == {8, 9, 10} - {10} + {7};
    HoundHalf(s0, 0, {8, 9, 10}, 10, 7, {7, 8, 9});
    RunAppend(s, [NewGameClicked], [PieceClicked(10), PositionClicked(7)]);
    RunShort(s, NewGameClicked, NewGameClicked);
  }

  /** The oracle's answer can move a Hound, as App.tsx writes it: with the
      Hare to move on node 0 and the Hounds on 7, 8 and 9, the answer (8, 1)
      has a valid destination for the Hare and is taken, yet node 1 is no
      valid move for the Hound on 8. The checked choice moves the Hare. */
  lemma OracleCanMoveHoundAsWritten(s: Session)
    ensures var r := Run(s, [NewGameClicked] + [PieceClicked(10), PositionClicked(7)]);
      var valid := ValidMoves(r.game.board, 0);
      && r.game.status == Playing && r.game.currentTurn == Player.Hare
      && HareNode(r.game.board) == Some(0) && PieceAt(r.game.board, 8) == Some(Hound)
      && 1 in valid && 1 !in ValidMoves(r.game.board, 8)
      && AiChooseMoveAsWritten(0, valid, Some((8, 1)), 0) == (8, 1)
      && AiMove(r, Some((8, 1)), 0).Some? && AiMove(r, Some((8, 1)), 0).value.0 == 0
  {
    HoundsOnSevenToNine(s);
    var r := Run(s, [NewGameClicked] + [PieceClicked(10), PositionClicked(7)]);
    OracleBoard(r.game.board);
    assert HareHasMove(r.game.board);
  }

  /** An answer landing after "New Game" loses the Hare. From any session:
      New Game, the Hound on 10 to 7, the Hare 0 to 1, the Hound on 7 to 4.
      The Hare's turn then asks for a move and the answer (1, 0) is a valid
      one. If "New Game" is clicked before it lands, handleMove applies it to
      the starting board: node 0 takes node 1's emptiness and the Hare is
      gone, with the Hare to move in a running game. No event moves a piece
      after that, and the invariant is broken. */
  lemma LateAnswerLosesHare(s: Session)
    ensures var asked := Run(Run(Run(s, [NewGameClicked] + [PieceClicked(10), PositionClicked(7)]),
                                 [OracleAnswered(Some((0, 1)), 0)]), [PieceClicked(7), PositionClicked(4)]);
      var now := Step(asked, NewGameClicked);
      var r := LateAiTurn(asked, now, Some((1, 0)), 0);
      && Inv(asked) && AiMove(asked, Some((1, 0)), 0) == Some((1, 0))
      && now.game == NewGame(1)
      && r.game.status == Playing && r.game.currentTurn == Player.Hare
      && HareNode(r.game.board).None? && !Inv(r)
      && forall e :: StepMove(r, e).None?
  {
    HareOnOne(s);
    var s2 := Run(Run(s, [NewGameClicked] + [PieceClicked(10), PositionClicked(7)]),
                  [OracleAnswered(Some((0, 1)), 0)]);
    HoundOnFour(s2);
    var asked := Run(s2, [PieceClicked(7), PositionClicked(4)]);
    LateAnswerAsked(asked);
    var now := Step(asked, NewGameClicked);
    assert StepMove(asked, NewGameClicked).None?;
    LateAnswerOnNewGame(asked, now);
  }

  /** New Game, the Hound on 10 to 7 and the Hare 0 to 1. */
  lemma HareOnOne(s: Session)
    ensures Position(Run(Run(s, [NewGameClicked] + [PieceClicked(10), PositionClicked(7)]),
                         [OracleAnswered(Some((0, 1)), 0)]), 1, {7, 8, 9}, Hounds)
  {
    HoundsOnSevenToNine(s);
    var s1 := Run(s, [NewGameClicked] + [PieceClicked(10), PositionClicked(7)]);
    assert Adjacent(0, 1);
    HareHalf(s1, 0, {7, 8, 9}, 1);
  }

  /** Then the Hound on 7 to 4. */
  lemma HoundOnFour(s: Session)
    requires Position(s, 1, {7, 8, 9}, Hounds)
    ensures Position(Run(s, [PieceClicked(7), PositionClicked(4)]), 1, {4, 8, 9}, Player.Hare)
  {
    assert Adjacent(7, 4);
    assert {4, 8, 9} == {7, 8, 9} - {7} + {4};
    HoundHalf(s, 1, {7, 8, 9}, 7, 4, {4, 8, 9});
  }

  /** In that position the Hare's turn takes the answer (1, 0). */
  lemma LateAnswerAsked(s: Session)
    requires Position(s, 1, {4, 8, 9}, Player.Hare)
    ensures AiMove(s, Some((1, 0)), 0) == Some((1, 0))
  {
    var b := s.game.board;
    LateBoard(b);
    assert HareHasMove(b);
    assert s.game.status == Playing;
    var valid := ValidMoves(b, 1);
    assert AiChooseMove(1, valid, Some((1, 0)), 0 % |valid|) == (1, 0);
  }

  /** The board of that position, read node by node. */
  lemma LateBoard(b: Board)
    requires |b| == NodeCount && GoodBoard(b) && Placed(b, 1, {4, 8, 9})
    ensures HareNode(b) == Some(1) && 0 in ValidMoves(b, 1)
  {
    HareOnGoodBoard(b);
    ReadWellFormed(b, 1);
    ReadWellFormed(b, 0);
    assert b[1].piece == Some(PieceType.Hare) && b[0].piece == None;
    assert Adjacent(1, 0);
  }

  /** The move (1, 0) applied to a new game empties node 0, where the Hare
      stood, and passes the turn to the Hare. */
  lemma LateAnswerOnNewGame(asked: Session, now: Session)
    requires AiMove(asked, Some((1, 0)), 0) == Some((1, 0))
    requires now.game == NewGame(1)
    ensures var r := LateAiTurn(asked, now, Some((1, 0)), 0);
      && r.game.status == Playing && r.game.currentTurn == Player.Hare
      && HareNode(r.game.board).None? && !Inv(r)
      && forall e :: StepMove(r, e).None?
  {
    InitialBoardWellFormed();
    forall k | 1 < k < |InitialBoard|
      ensures InitialBoard[k].piece != Some(PieceType.Hare)
    {
      InitialBoardPlacement(k);
    }
    InitialBoardPlacement(1);
    LateAnswerOnHareAtZero(asked, now);
  }

  /** The same on any running game with the Hounds to move whose only Hare
      stands on node 0 and whose node 1 is empty. */
  lemma LateAnswerOnHareAtZero(asked: Session, now: Session)
    requires AiMove(asked, Some((1, 0)), 0) == Some((1, 0))
    requires now.game.status == Playing && now.game.currentTurn == Hounds
    requires WellFormed(now.game.board) && now.game.board[1].piece == None
    requires forall k :: 1 < k < |now.game.board| ==> now.game.board[k].piece != Some(PieceType.Hare)
    ensures var r := LateAiTurn(asked, now, Some((1, 0)), 0);
      && r.game.status == Playing && r.game.currentTurn == Player.Hare
      && HareNode(r.game.board).None? && !Inv(r)
      && forall e :: StepMove(r, e).None?
  {
    var b := now.game.board;
    IndexOfWellFormed(b, 0);
    IndexOfWellFormed(b, 1);
    var r := LateAiTurn(asked, now, Some((1, 0)), 0);
    assert r.game == HandleMove(now.game, 1, 0);
    EmptyOntoHare(b);
    assert r.game.status == Playing;
    NoHareNoMove(r);
  }

  /** On a well-formed board whose only Hare stands on node 0, moving node
      1's emptiness onto node 0 leaves no Hare. */
  lemma EmptyOntoHare(b: Board)
    requires WellFormed(b) && b[1].piece == None
    requires forall k :: 1 < k < |b| ==> b[k].piece != Some(PieceType.Hare)
    ensures HareNode(MovePiece(b, 1, 0)).None?
  {
    IndexOfWellFormed(b, 0);
    IndexOfWellFormed(b, 1);
    var r := MovePiece(b, 1, 0);
    forall k | 0 <= k < |r|
      ensures r[k].piece != Some(PieceType.Hare)
    {
      if k > 1 {
        assert r[k] == b[k];
      }
    }
    HareNodeWellFormed(r);
  }

  /** With the Hare to move and no Hare on the board, no event makes a move,
      and the invariant fails. */
  lemma NoHareNoMove(r: Session)
    requires r.game.status == Playing && r.game.currentTurn == Player.Hare
    requires HareNode(r.game.board).None?
    ensures !Inv(r)
    ensures forall e :: StepMove(r, e).None?
  {
    assert !HareHasMove(r.game.board);
  }

  /** A game saved by an older version opens with the Hare marked visible.
      After the opening board, a game whose Hare is hidden then breaks the
      invariant's visibility clause. */
  lemma LegacySaveShowsHare(g: GameState)
    requires GameInv(g) && |g.history| >= 2 && !HareVisible(g.board)
    ensures !GameInv(Load(Save(g).(isHareVisible := None)))
  {
  }

  /** The board of that position, read node by node. */
  lemma OracleBoard(b: Board)
    requires |b| == NodeCount && GoodBoard(b) && Placed(b, 0, {7, 8, 9})
    ensures HareNode(b) == Some(0) && PieceAt(b, 8) == Some(Hound)
    ensures 1 in ValidMoves(b, 0) && 1 !in ValidMoves(b, 8)
  {
    HareOnGoodBoard(b);
    ReadWellFormed(b, 0);
    ReadWellFormed(b, 1);
    ReadWellFormed(b, 8);
    assert b[0].piece == Some(PieceType.Hare) && b[1].piece == None && b[8].piece == Some(Hound);
    assert Adjacent(0, 1) && !Adjacent(8, 1);
  }
}
