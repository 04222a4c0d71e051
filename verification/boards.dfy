/** Looking up and updating board slots by node id, the way the source does it
    with `board.find(...)`: the first slot that matches wins. */
module Boards {
  import opened Types

  /** Number of nodes on the board. */
  const NodeCount: int := 11

  predicate IsNode(id: int) {
    0 <= id < NodeCount
  }

  /** The board of a running game: eleven slots, slot `k` holding node `k`. */
  predicate WellFormed(b: Board) {
    |b| == NodeCount && forall k :: 0 <= k < |b| ==> b[k].id == k
  }

  /** Index of the first slot whose id is `id` (`board.find(p => p.id === id)`). */
  function IndexOf(b: Board, id: int): (r: Option<nat>)
    ensures r.Some? ==> r.value < |b| && b[r.value].id == id
    ensures r.Some? ==> forall k :: 0 <= k < r.value ==> b[k].id != id
    ensures r.None? ==> forall k :: 0 <= k < |b| ==> b[k].id != id
    ensures 0 <= id < |b| && b[id].id == id ==> r.Some?
  {
    if |b| == 0 then None
    else if b[0].id == id then Some(0)
    else match IndexOf(b[1..], id)
      case None => None
      case Some(k) => Some(k + 1)
  }

  /** Index of the first slot holding a piece of kind `p`
      (`board.find(p => p.piece === kind)`). */
  function IndexOfPiece(b: Board, p: PieceType): (r: Option<nat>)
    ensures r.Some? ==> r.value < |b| && b[r.value].piece == Some(p)
    ensures r.Some? ==> forall k :: 0 <= k < r.value ==> b[k].piece != Some(p)
    ensures r.None? ==> forall k :: 0 <= k < |b| ==> b[k].piece != Some(p)
  {
    if |b| == 0 then None
    else if b[0].piece == Some(p) then Some(0)
    else match IndexOfPiece(b[1..], p)
      case None => None
      case Some(k) => Some(k + 1)
  }

  /** On a well-formed board, the slot of node `id` is slot `id`, and ids
      outside the board have no slot. */
  lemma IndexOfWellFormed(b: Board, id: int)
    requires WellFormed(b)
    ensures IndexOf(b, id) == if IsNode(id) then Some(id) else None
  {
    if IsNode(id) {
      assert b[id].id == id;
    }
  }

  /** What stands on node `id`; a missing slot reads as empty
      (`board.find(p => p.id === id)?.piece`). */
  function PieceAt(b: Board, id: int): Option<PieceType> {
    match IndexOf(b, id)
    case None => None
    case Some(k) => b[k].piece
  }

  /** Node `id` has a slot and the slot is empty
      (`board.find(p => p.id === id)?.piece === null`). */
  predicate IsEmptyAt(b: Board, id: int) {
    match IndexOf(b, id)
    case None => false
    case Some(k) => b[k].piece.None?
  }

  /** The node of the first Hare on the board, if any. */
  function HareNode(b: Board): Option<int> {
    match IndexOfPiece(b, PieceType.Hare)
    case None => None
    case Some(k) => Some(b[k].id)
  }

  /** On a well-formed board, reading a node is indexing the board, and an
      empty node is one whose slot holds nothing. */
  lemma ReadWellFormed(b: Board, id: int)
    requires WellFormed(b)
    ensures PieceAt(b, id) == if IsNode(id) then b[id].piece else None
    ensures IsEmptyAt(b, id) <==> IsNode(id) && b[id].piece.None?
  {
    IndexOfWellFormed(b, id);
  }

  /** On a well-formed board the Hare's node is the first slot holding it. */
  lemma HareNodeWellFormed(b: Board)
    requires WellFormed(b)
    ensures HareNode(b).Some? <==> exists k :: 0 <= k < |b| && b[k].piece == Some(PieceType.Hare)
    ensures HareNode(b).Some? ==> IsNode(HareNode(b).value)
    ensures HareNode(b).Some? ==> PieceAt(b, HareNode(b).value) == Some(PieceType.Hare)
  {
    if HareNode(b).Some? {
      ReadWellFormed(b, HareNode(b).value);
    }
  }

  /** The occupants of the board, slot by slot. */
  function Occupants(b: Board): (r: seq<Option<PieceType>>)
    ensures |r| == |b| && forall k :: 0 <= k < |b| ==> r[k] == b[k].piece
  {
    seq(|b|, k requires 0 <= k < |b| => b[k].piece)
  }

  /** Moving a piece (handleMove's board update): the first slot of `from` is
      emptied, then the first slot of `to` receives what stood on `from`.
      Setting a piece never changes ids, so the slot of `to` is found on the
      original board. */
  function MovePiece(b: Board, from: int, to: int): (r: Board)
    requires IndexOf(b, from).Some? && IndexOf(b, to).Some?
    ensures |r| == |b| && forall k :: 0 <= k < |b| ==> r[k].id == b[k].id
    ensures WellFormed(b) ==> WellFormed(r)
    ensures WellFormed(b) ==> r[to].piece == b[from].piece
    ensures WellFormed(b) && from != to ==> r[from].piece == None
    ensures WellFormed(b) ==> forall k :: 0 <= k < |b| && k != from && k != to ==> r[k] == b[k]
  {
    var i := IndexOf(b, from).value;
    var j := IndexOf(b, to).value;
    var moved := b[i].piece;
    var emptied := b[i := b[i].(piece := None)];
    IndexOfWellFormedHint(b, from, to);
    emptied[j := emptied[j].(piece := moved)]
  }

  /** On a well-formed board the two slots found by `MovePiece` are the
      nodes' own slots. */
  lemma IndexOfWellFormedHint(b: Board, from: int, to: int)
    requires IndexOf(b, from).Some? && IndexOf(b, to).Some?
    ensures WellFormed(b) ==> IndexOf(b, from) == Some(from) && IndexOf(b, to) == Some(to)
  {
    if WellFormed(b) {
      IndexOfWellFormed(b, from);
      IndexOfWellFormed(b, to);
    }
  }

  /** Sliding a piece onto an empty node keeps the multiset of occupants:
      nothing is created, captured or lost. */
  lemma MoveKeepsOccupants(b: Board, from: int, to: int)
    requires WellFormed(b) && IsNode(from) && IsNode(to)
    requires b[to].piece == None
    ensures multiset(Occupants(MovePiece(b, from, to))) == multiset(Occupants(b))
  {
    IndexOfWellFormed(b, from);
    IndexOfWellFormed(b, to);
    var r := MovePiece(b, from, to);
    if from == to {
      assert Occupants(r) == Occupants(b);
    } else {
      var o := Occupants(b);
      assert Occupants(r) == o[from := None][to := o[from]];
    }
  }

  /** Moving a piece onto an empty node and straight back restores the board. */
  lemma MoveBackRestores(b: Board, from: int, to: int)
    requires WellFormed(b) && IsNode(from) && IsNode(to)
    requires b[to].piece == None
    ensures MovePiece(MovePiece(b, from, to), to, from) == b
  {
    IndexOfWellFormed(b, from);
    IndexOfWellFormed(b, to);
    var r := MovePiece(b, from, to);
    IndexOfWellFormed(r, from);
    IndexOfWellFormed(r, to);
    var back := MovePiece(r, to, from);
    forall k | 0 <= k < |b|
      ensures back[k] == b[k]
    {
    }
  }
}
