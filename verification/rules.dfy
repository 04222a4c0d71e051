/** The rules of play: which nodes a piece may move to, whether the Hare is
    visible, and who has won after a move (App.tsx: getValidMoves,
    updateHareVisibility, checkWinConditions). */
module Rules {
  import opened Types
  import opened Boards
  import opened Constants

  /** The forward-only rule for Hounds: a Hound moves to a smaller node,
      except that from the back rank it may also move along the back rank. */
  predicate HoundMayEnter(from: int, d: int) {
    if from in BackRank then d < from || d in BackRank else d < from
  }

  /** The candidates in `ids` whose node has a slot and that slot is empty,
      in their original order. */
  function KeepEmpty(b: Board, ids: seq<int>): (r: seq<int>)
    ensures forall d :: d in r <==> d in ids && IsEmptyAt(b, d)
    ensures |r| <= |ids|
  {
    if |ids| == 0 then []
    else
      var rest := KeepEmpty(b, ids[1..]);
      if IsEmptyAt(b, ids[0]) then [ids[0]] + rest else rest
  }

  /** The candidates in `ids` a Hound on `from` may enter, in their original
      order. */
  function KeepHoundTargets(from: int, ids: seq<int>): (r: seq<int>)
    ensures forall d :: d in r <==> d in ids && HoundMayEnter(from, d)
    ensures |r| <= |ids|
  {
    if |ids| == 0 then []
    else
      var rest := KeepHoundTargets(from, ids[1..]);
      if HoundMayEnter(from, ids[0]) then [ids[0]] + rest else rest
  }

  /** The nodes the piece on `pieceId` may move to (getValidMoves): empty
      neighbours, and for a Hound only those the forward-only rule allows.
      An empty or missing slot has no moves. */
  function ValidMoves(b: Board, pieceId: int): (r: seq<int>)
    ensures PieceAt(b, pieceId).None? ==> r == []
    ensures r != [] ==> IndexOf(b, pieceId).Some?
    ensures forall d :: d in r ==> IndexOf(b, d).Some?
    ensures forall d :: d in r ==> Adjacent(pieceId, d) && IsEmptyAt(b, d)
    ensures PieceAt(b, pieceId) == Some(PieceType.Hare) ==>
      forall d :: d in r <==> Adjacent(pieceId, d) && IsEmptyAt(b, d)
    ensures PieceAt(b, pieceId) == Some(Hound) ==>
      forall d :: d in r <==> Adjacent(pieceId, d) && IsEmptyAt(b, d) && HoundMayEnter(pieceId, d)
  {
    match PieceAt(b, pieceId)
    case None => []
    case Some(Hound) => KeepHoundTargets(pieceId, KeepEmpty(b, Neighbours(pieceId)))
    case Some(Hare) => KeepEmpty(b, Neighbours(pieceId))
  }

  /** Some slot holds a Hound on node `c` (`houndPositions.includes(c)`). */
  predicate HoundOn(b: Board, c: int) {
    exists k :: 0 <= k < |b| && b[k].piece == Some(Hound) && b[k].id == c
  }

  /** Whether the Hare is visible (updateHareVisibility): some neighbour of
      the Hare's node holds a Hound. With no Hare on the board it is hidden. */
  predicate HareVisible(b: Board)
    ensures HareVisible(b) ==> HareNode(b).Some?
  {
    match HareNode(b)
    case None => false
    case Some(h) => exists c :: c in Neighbours(h) && HoundOn(b, c)
  }

  /** The status after a move, given the new board and the side to move next
      (checkWinConditions). The checks run in a fixed order: the Hare on its
      goal wins for the Hare whoever moves next; otherwise a Hare to move
      with no legal move loses. Nothing else changes the status. */
  function WinStatus(b: Board, next: Player, prior: GameStatus): (st: GameStatus)
    ensures st in {prior, HareWin, HoundsWin}
    ensures st != prior ==> HareNode(b).Some?
  {
    match HareNode(b)
    case None => prior
    case Some(h) =>
      if h == HareGoal then HareWin
      else if next == Player.Hare && |ValidMoves(b, h)| == 0 then HoundsWin
      else prior
  }

  /** On a well-formed board a move never stays in place and only enters an
      empty node of the board. */
  lemma MovesEnterEmptyNodes(b: Board, pieceId: int, d: int)
    requires WellFormed(b)
    requires d in ValidMoves(b, pieceId)
    ensures IsNode(pieceId) && IsNode(d) && d != pieceId
    ensures b[d].piece == None
    ensures b[pieceId].piece.Some?
  {
    ReadWellFormed(b, d);
    ReadWellFormed(b, pieceId);
    AdjacencyIrreflexive(pieceId);
    var k :| 0 <= k < |Neighbours(pieceId)| && Neighbours(pieceId)[k] == d;
    NeighboursAreNodes(pieceId, k);
  }

  /** Hounds never move backward: off the back rank every destination is a
      smaller node, and from the back rank every destination is a smaller
      node or another back-rank node. */
  lemma HoundsMoveForward(b: Board, pieceId: int, d: int)
    requires PieceAt(b, pieceId) == Some(Hound)
    requires d in ValidMoves(b, pieceId)
    ensures pieceId !in BackRank ==> d < pieceId
    ensures pieceId in BackRank ==> d < pieceId || d in BackRank
  {
  }

  /** A Hare's move can always be taken back: after the Hare moves from `a`
      to `d`, node `a` is a legal move for it. */
  lemma HareMovesReversible(b: Board, a: int, d: int)
    requires WellFormed(b)
    requires PieceAt(b, a) == Some(PieceType.Hare)
    requires d in ValidMoves(b, a)
    ensures PieceAt(MovePiece(b, a, d), d) == Some(PieceType.Hare)
    ensures a in ValidMoves(MovePiece(b, a, d), d)
  {
    MovesEnterEmptyNodes(b, a, d);
    var r := MovePiece(b, a, d);
    IndexOfWellFormed(b, a);
    IndexOfWellFormed(b, d);
    ReadWellFormed(r, a);
    ReadWellFormed(r, d);
    AdjacencySymmetric(a, d);
  }

  /** The Hare is visible exactly when a Hound stands on a node adjacent to
      the Hare's; with no Hare it is hidden. */
  lemma VisibleIffHoundAdjacent(b: Board)
    requires WellFormed(b)
    ensures HareNode(b).None? ==> !HareVisible(b)
    ensures HareNode(b).Some? ==>
      (HareVisible(b) <==> exists n :: 0 <= n < |b| && b[n].piece == Some(Hound) && Adjacent(n, HareNode(b).value))
  {
    if HareNode(b).Some? {
      var h := HareNode(b).value;
      if HareVisible(b) {
        var c :| c in Neighbours(h) && HoundOn(b, c);
        var k :| 0 <= k < |b| && b[k].piece == Some(Hound) && b[k].id == c;
        AdjacencySymmetric(h, c);
        assert b[c].piece == Some(Hound) && Adjacent(c, h);
      }
      if exists n :: 0 <= n < |b| && b[n].piece == Some(Hound) && Adjacent(n, h) {
        var n :| 0 <= n < |b| && b[n].piece == Some(Hound) && Adjacent(n, h);
        AdjacencySymmetric(h, n);
        assert n in Neighbours(h) && HoundOn(b, n);
      }
    }
  }

  /** The win check in order: the Hare on its goal wins for the Hare even
      when it could not move; otherwise a Hare to move with no legal move
      loses; in every other case the status is left as it was, in
      particular a Hound that cannot move never ends the game. */
  lemma WinCheckOrder(b: Board, next: Player, prior: GameStatus)
    ensures HareNode(b) == Some(HareGoal) ==> WinStatus(b, next, prior) == HareWin
    ensures WinStatus(b, next, prior) == HoundsWin && prior != HoundsWin ==>
      next == Player.Hare && exists h :: HareNode(b) == Some(h) && h != HareGoal && ValidMoves(b, h) == []
    ensures (&& HareNode(b).Some? && HareNode(b).value != HareGoal && next == Player.Hare
             && ValidMoves(b, HareNode(b).value) == [])
      ==> WinStatus(b, next, prior) == HoundsWin
    ensures next == Hounds ==> WinStatus(b, next, prior) in {HareWin, prior}
    ensures WinStatus(b, next, prior) in {prior, HareWin, HoundsWin}
    ensures (forall h :: HareNode(b) == Some(h) ==> h != HareGoal && (next == Player.Hare ==> ValidMoves(b, h) != []))
      ==> WinStatus(b, next, prior) == prior
  {
  }
}
