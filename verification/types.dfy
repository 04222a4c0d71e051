/** The shapes of the game's data: pieces, sides, statuses, difficulty, board
    slots and the whole game state (types.ts). */
module Types {

  /** The conventional Some/None datatype; `None` stands for the source's
      `null` and `undefined` alike. */
  datatype Option<T> = None | Some(value: T)

  /** A piece on the board. An empty slot holds `None`, so an occupant is
      exactly one of Hare, Hound or empty. */
  datatype PieceType = Hare | Hound

  /** The two sides; the human always plays the Hounds. */
  datatype Player = Hounds | Hare

  /** `Paused` is declared by the source but no transition produces it. */
  datatype GameStatus = Playing | HoundsWin | HareWin | Paused

  datatype Difficulty = Easy | Medium | Hard

  /** One node of the board: its id and what stands on it. */
  datatype BoardPosition = BoardPosition(id: int, piece: Option<PieceType>)

  type Board = seq<BoardPosition>

  /** The persisted part of a match (the source's `GameState`). */
  datatype GameState = GameState(
    board: Board,
    currentTurn: Player,
    status: GameStatus,
    level: int,
    difficulty: Difficulty,
    history: seq<Board>,
    isHareVisible: bool,
    trackCharges: int)

  /** The side that moves after `p`. */
  function Opponent(p: Player): (q: Player)
    ensures q != p
  {
    match p
    case Hounds => Player.Hare
    case Hare => Hounds
  }

  /** The kind of piece that side `p` moves. */
  function PieceOf(p: Player): (k: PieceType)
    ensures p == Hounds <==> k == Hound
  {
    match p
    case Hounds => Hound
    case Hare => PieceType.Hare
  }

  /** With only two sides, flipping the turn twice gives back the side that
      started. */
  lemma OpponentInvolution(p: Player, q: Player)
    ensures Opponent(Opponent(p)) == p
    ensures q != p ==> q == Opponent(p)
  {
  }
}
