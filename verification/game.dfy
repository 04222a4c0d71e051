/** Operations on the persisted game state (App.tsx): starting a game at a
    level, applying a move, undoing a round, the level ladder, and filling
    in fields that older saved games lack. */
module Game {
  import opened Types
  import opened Boards
  import opened Constants
  import opened Rules

  /** The difficulty of a level: up to 3 Easy, up to 7 Medium, then Hard. */
  function DifficultyFor(level: int): (d: Difficulty)
    ensures d == Easy <==> level <= 3
    ensures d == Hard <==> level > 7
  {
    if level <= 3 then Easy else if level <= 7 then Medium else Hard
  }

  /** Difficulties in increasing order. */
  function Rank(d: Difficulty): nat {
    match d
    case Easy => 0
    case Medium => 1
    case Hard => 2
  }

  /** Harder levels never get an easier difficulty. */
  lemma DifficultyMonotone(l1: int, l2: int)
    requires l1 <= l2
    ensures Rank(DifficultyFor(l1)) <= Rank(DifficultyFor(l2))
  {
  }

  /** Every difficulty is the difficulty of some level of the game. */
  lemma EveryDifficultyUsed(d: Difficulty)
    ensures exists level :: 1 <= level <= TotalLevels && DifficultyFor(level) == d
  {
    match d
    case Easy => assert DifficultyFor(1) == Easy;
    case Medium => assert DifficultyFor(4) == Medium;
    case Hard => assert DifficultyFor(8) == Hard;
  }

  /** The level after a won game (handlePostAd): one more, capped at the
      number of levels. */
  function NextLevel(level: int): (n: int)
    ensures level < TotalLevels ==> n == level + 1
    ensures level >= TotalLevels ==> n == TotalLevels
  {
    if level + 1 < TotalLevels then level + 1 else TotalLevels
  }

  /** The level reached from level 1 after `wins` won games in a row. */
  function LevelAfter(wins: nat): int {
    if wins == 0 then 1 else NextLevel(LevelAfter(wins - 1))
  }

  /** Winning climbs one level per game until the cap, then stays there. */
  lemma {:induction false} LevelLadder(wins: nat)
    ensures LevelAfter(wins) == if wins < TotalLevels then wins + 1 else TotalLevels
    ensures 1 <= LevelAfter(wins) <= TotalLevels
  {
    if wins > 0 {
      LevelLadder(wins - 1);
    }
  }

  /** A new game at `level` (startNewGame): the starting board as the whole
      history, the Hounds to move, the level's difficulty, a full set of
      Track Hare charges, and the Hare marked visible. */
  function NewGame(level: int): (g: GameState)
    ensures g.board == InitialBoard && g.history == [InitialBoard]
    ensures g.currentTurn == Hounds && g.status == Playing
    ensures g.level == level && g.difficulty == DifficultyFor(level)
    ensures g.trackCharges == InitialTrackCharges && g.isHareVisible
  {
    GameState(InitialBoard, Hounds, Playing, level, DifficultyFor(level),
              [InitialBoard], true, InitialTrackCharges)
  }

  /** The game the app opens with when nothing is saved: level 1, Easy. */
  const FreshGame: GameState :=
    GameState(InitialBoard, Hounds, Playing, 1, Easy, [InitialBoard], true, InitialTrackCharges)

  /** Opening the app fresh is starting a new game at level 1. A new game
      marks the Hare visible although no Hound is next to it. */
  lemma FreshGameIsLevelOne()
    ensures FreshGame == NewGame(1)
    ensures FreshGame.isHareVisible && !HareVisible(FreshGame.board)
  {
    InitialBoardWellFormed();
    VisibleIffHoundAdjacent(InitialBoard);
    assert HareNode(InitialBoard) == Some(0);
  }

  /** Applying a move (handleMove): the piece on `from` goes to `to`, the new
      board is appended to the history, the turn passes, visibility is
      recomputed from the new board and the win check runs on it. */
  function HandleMove(g: GameState, from: int, to: int): (r: GameState)
    requires IndexOf(g.board, from).Some? && IndexOf(g.board, to).Some?
    ensures WellFormed(g.board) ==> WellFormed(r.board)
    ensures WellFormed(g.board) ==> r.board[to].piece == g.board[from].piece
    ensures WellFormed(g.board) && from != to ==> r.board[from].piece == None
    ensures WellFormed(g.board) ==>
      forall k :: 0 <= k < |g.board| && k != from && k != to ==> r.board[k] == g.board[k]
    ensures |r.history| == |g.history| + 1 && r.history[..|g.history|] == g.history
    ensures r.history[|g.history|] == r.board
    ensures r.currentTurn == Opponent(g.currentTurn)
    ensures r.isHareVisible == HareVisible(r.board)
    ensures r.status == WinStatus(r.board, r.currentTurn, g.status)
    ensures r.level == g.level && r.difficulty == g.difficulty && r.trackCharges == g.trackCharges
  {
    var newBoard := MovePiece(g.board, from, to);
    var nextTurn := Opponent(g.currentTurn);
    g.(board := newBoard,
       currentTurn := nextTurn,
       history := g.history + [newBoard],
       isHareVisible := HareVisible(newBoard),
       status := WinStatus(newBoard, nextTurn, g.status))
  }

  /** Whether the Undo button is enabled (canUndo): a full round has been
      played, the Hounds are to move and the game is still on. */
  predicate CanUndo(g: GameState)
    ensures CanUndo(g) ==> |HandleUndo(g).history| == |g.history| - 2
  {
    |g.history| >= 3 && g.currentTurn == Hounds && g.status == Playing
  }

  /** Undoing a round (handleUndoMove): drops the last two boards of the
      history and returns to the board before them, with the Hounds to move
      and the game back on. Refused, with nothing changed, before a full
      round or when the Hare is to move; unlike the button it does not look
      at the status, so it also reopens a finished game. */
  function HandleUndo(g: GameState): (r: GameState)
    ensures !(|g.history| >= 3 && g.currentTurn == Hounds) ==> r == g
    ensures |g.history| >= 3 && g.currentTurn == Hounds ==>
      && |r.history| == |g.history| - 2
      && r.history == g.history[..|g.history| - 2]
      && r.board == r.history[|r.history| - 1]
      && r.currentTurn == Hounds && r.status == Playing
      && r.isHareVisible == HareVisible(r.board)
    ensures r.level == g.level && r.difficulty == g.difficulty && r.trackCharges == g.trackCharges
  {
    if |g.history| < 3 || g.currentTurn != Hounds then g
    else
      var newHistory := g.history[..|g.history| - 2];
      var last := newHistory[|newHistory| - 1];
      g.(board := last,
         history := newHistory,
         currentTurn := Hounds,
         status := Playing,
         isHareVisible := HareVisible(last))
  }

  /** Undo takes back a whole round: after a Hounds' move and the Hare's
      reply, undoing restores the board and history the Hounds moved from,
      reopens the game and recomputes visibility, whatever the two moves
      were and whatever the win check said. */
  lemma UndoReversesRound(g: GameState, f1: int, t1: int, f2: int, t2: int)
    requires |g.history| >= 1 && g.history[|g.history| - 1] == g.board
    requires g.currentTurn == Hounds
    requires IndexOf(g.board, f1).Some? && IndexOf(g.board, t1).Some?
    requires IndexOf(HandleMove(g, f1, t1).board, f2).Some? && IndexOf(HandleMove(g, f1, t1).board, t2).Some?
    ensures HandleUndo(HandleMove(HandleMove(g, f1, t1), f2, t2)) ==
      g.(status := Playing, isHareVisible := HareVisible(g.board))
  {
    var g1 := HandleMove(g, f1, t1);
    var g2 := HandleMove(g1, f2, t2);
    assert g2.history == g.history + [g1.board, g2.board];
    UndoDropsTwo(g, g2, g1.board, g2.board);
  }

  /** Undo after two boards were appended to a game's history, the Hounds
      to move again and the level and charges untouched, gives back that
      game, running and with visibility recomputed. */
  lemma UndoDropsTwo(g: GameState, g2: GameState, b1: Board, b2: Board)
    requires |g.history| >= 1 && g.history[|g.history| - 1] == g.board
    requires g2.history == g.history + [b1, b2] && g2.currentTurn == Hounds == g.currentTurn
    requires g2.level == g.level && g2.difficulty == g.difficulty && g2.trackCharges == g.trackCharges
    ensures HandleUndo(g2) == g.(status := Playing, isHareVisible := HareVisible(g.board))
  {
    assert g2.history[..|g2.history| - 2] == g.history;
  }

  /** Undo shortens the history two boards at a time, and it is refused,
      changing nothing, exactly before a full round or on the Hare's turn. */
  lemma UndoSteps(g: GameState)
    ensures |g.history| >= 3 && g.currentTurn == Hounds ==>
      |HandleUndo(g).history| == |g.history| - 2 && HandleUndo(g).currentTurn == Hounds
    ensures HandleUndo(g) == g || |HandleUndo(g).history| < |g.history|
    ensures HandleUndo(g) == g <==> |g.history| < 3 || g.currentTurn == Player.Hare
  {
  }

  /** A saved game as read back from storage: games saved by older versions
      lack the visibility flag and the charge count. */
  datatype SavedGame = SavedGame(
    board: Board,
    currentTurn: Player,
    status: GameStatus,
    level: int,
    difficulty: Difficulty,
    history: seq<Board>,
    isHareVisible: Option<bool>,
    trackCharges: Option<int>)

  /** Saving writes every field of the state (saveGame). */
  function Save(g: GameState): (s: SavedGame)
    ensures s.isHareVisible.Some? && s.trackCharges.Some?
  {
    SavedGame(g.board, g.currentTurn, g.status, g.level, g.difficulty, g.history,
              Some(g.isHareVisible), Some(g.trackCharges))
  }

  /** Loading a saved game: the fields it has are kept; a missing visibility
      flag reads as visible and missing charges as a full set. */
  function Load(s: SavedGame): (g: GameState)
    ensures g.board == s.board && g.history == s.history && g.currentTurn == s.currentTurn
    ensures g.status == s.status && g.level == s.level && g.difficulty == s.difficulty
    ensures s.isHareVisible.Some? ==> g.isHareVisible == s.isHareVisible.value
    ensures s.trackCharges.Some? ==> g.trackCharges == s.trackCharges.value
    ensures s.isHareVisible.None? ==> g.isHareVisible
    ensures s.trackCharges.None? ==> g.trackCharges == InitialTrackCharges
  {
    GameState(s.board, s.currentTurn, s.status, s.level, s.difficulty, s.history,
              match s.isHareVisible case Some(v) => v case None => true,
              match s.trackCharges case Some(n) => n case None => InitialTrackCharges)
  }

  /** Loading what was saved gives back the same game. */
  lemma LoadSaveRoundTrip(g: GameState)
    ensures Load(Save(g)) == g
  {
  }

  /** A game saved by an older version, without the two newer fields, loads
      as the same game with the Hare visible and a full set of charges. */
  lemma LoadLegacy(g: GameState)
    ensures Load(Save(g).(isHareVisible := None, trackCharges := None)) ==
      g.(isHareVisible := true, trackCharges := InitialTrackCharges)
  {
  }
}
