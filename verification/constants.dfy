/** The fixed data of the game (constants.ts): the adjacency table of the
    eleven-node board, the starting position, the number of levels and the
    number of Track Hare charges per game. */
module Constants {
  import opened Types
  import opened Boards

  /** The neighbours of each node, in the table's order (`BOARD_CONNECTIONS`).
      An id outside 0..10 has no entry in the table; it reads as no
      neighbours here. */
  function Neighbours(id: int): seq<int> {
    match id
    case 0 => [1, 2, 3]
    case 1 => [0, 2, 4, 5]
    case 2 => [0, 1, 3, 5]
    case 3 => [0, 2, 5, 6]
    case 4 => [1, 5, 7]
    case 5 => [1, 2, 3, 4, 6, 7, 8, 9]
    case 6 => [3, 5, 9]
    case 7 => [4, 5, 8, 10]
    case 8 => [5, 7, 9, 10]
    case 9 => [5, 6, 8, 10]
    case 10 => [7, 8, 9]
    case _ => []
  }

  /** An edge of the board graph. */
  predicate Adjacent(a: int, b: int) {
    b in Neighbours(a)
  }

  /** The Hounds' starting rank, where they may also move sideways. */
  const BackRank: set<int> := {7, 8, 9, 10}

  /** The node the Hare must reach. */
  const HareGoal: int := 10

  const TotalLevels: int := 10
  const InitialTrackCharges: int := 3

  /** The starting position: the Hare on node 0, Hounds on nodes 8, 9 and 10. */
  const InitialBoard: Board := [
    BoardPosition(0, Some(PieceType.Hare)),
    BoardPosition(1, None),
    BoardPosition(2, None),
    BoardPosition(3, None),
    BoardPosition(4, None),
    BoardPosition(5, None),
    BoardPosition(6, None),
    BoardPosition(7, None),
    BoardPosition(8, Some(Hound)),
    BoardPosition(9, Some(Hound)),
    BoardPosition(10, Some(Hound))
  ]

  /** The pieces of a game: one Hare, three Hounds and seven empty slots.
      They appear in three forms: this multiset, the three counts of
      `HasStartingPieces`, and the slot-by-slot `StartingSlots` of the
      starting board. The invariant uses the counts, which a move is cheapest
      to check against; `StartingPiecesCounts` turns them into this multiset
      and `InitialBoardPieces` checks them on the starting board. */
  const StartingPieces: multiset<Option<PieceType>> :=
    multiset{Some(PieceType.Hare), Some(Hound), Some(Hound), Some(Hound),
             None, None, None, None, None, None, None}

  /** A board carrying exactly the pieces of a game, counted kind by kind. */
  predicate HasStartingPieces(b: Board) {
    && multiset(Occupants(b))[Some(PieceType.Hare)] == 1
    && multiset(Occupants(b))[Some(Hound)] == 3
    && multiset(Occupants(b))[None] == 7
  }

  /** The lines the renderer draws between nodes (Board.tsx), one per edge. */
  const RendererEdges: seq<(int, int)> := [
    (0, 1), (0, 2), (0, 3), (1, 4), (1, 5), (2, 5), (3, 5), (3, 6),
    (4, 7), (5, 7), (5, 8), (5, 9), (6, 9), (7, 10), (8, 10), (9, 10),
    (1, 2), (2, 3), (4, 5), (5, 6), (7, 8), (8, 9)
  ]

  /** Every neighbour in the table is a node of the board, other than the
      node itself, and listed once. */
  lemma NeighboursAreNodes(a: int, k: int)
    requires 0 <= k < |Neighbours(a)|
    ensures IsNode(a) && IsNode(Neighbours(a)[k]) && Neighbours(a)[k] != a
    ensures forall j :: 0 <= j < |Neighbours(a)| && j != k ==> Neighbours(a)[j] != Neighbours(a)[k]
  {
  }

  /** The table is symmetric: `b` lists `a` exactly when `a` lists `b`. */
  lemma AdjacencySymmetric(a: int, b: int)
    ensures Adjacent(a, b) <==> Adjacent(b, a)
  {
    if Adjacent(a, b) {
      EdgeBack(a, b);
    }
    if Adjacent(b, a) {
      EdgeBack(b, a);
    }
  }

  /** Each edge of the table is listed from its other end too. */
  lemma EdgeBack(a: int, b: int)
    requires Adjacent(a, b)
    ensures Adjacent(b, a)
  {
  }

  /** The table is irreflexive. */
  lemma AdjacencyIrreflexive(a: int)
    ensures !Adjacent(a, a)
  {
  }

  /** Node 5 is the hub with eight neighbours, every other node has at most
      four, and the two ends 0 and 10 have three each. */
  lemma Degrees(a: int)
    ensures |Neighbours(5)| == 8 && |Neighbours(0)| == 3 && |Neighbours(10)| == 3
    ensures IsNode(a) && a != 5 ==> |Neighbours(a)| <= 4
  {
  }

  /** The Hare's goal borders only back-rank nodes: 7, 8 and 9. */
  lemma GoalNeighbours(n: int)
    ensures Adjacent(HareGoal, n) <==> n in {7, 8, 9}
    ensures Adjacent(HareGoal, n) ==> n in BackRank
  {
  }

  /** Each line the renderer draws is an edge of the table, written low end
      first; there are 22 of them. */
  lemma RendererEdgesAreEdges(i: int)
    requires 0 <= i < |RendererEdges|
    ensures |RendererEdges| == 22
    ensures RendererEdges[i].0 < RendererEdges[i].1
    ensures Adjacent(RendererEdges[i].0, RendererEdges[i].1)
  {
    if i < 8 {
      DrawnEdgesFrom(0, 8, i);
    } else if i < 16 {
      DrawnEdgesFrom(8, 16, i);
    } else {
      DrawnEdgesFrom(16, 22, i);
    }
  }

  /** The drawn lines at positions `lo` to `hi - 1`, checked one stretch at
      a time. */
  lemma DrawnEdgesFrom(lo: int, hi: int, i: int)
    requires (lo, hi) in {(0, 8), (8, 16), (16, 22)} && lo <= i < hi
    ensures |RendererEdges| == 22
    ensures RendererEdges[i].0 < RendererEdges[i].1
    ensures Adjacent(RendererEdges[i].0, RendererEdges[i].1)
  {
    var e := RendererEdges[i];
    assert e in RendererEdges[lo..hi];
  }

  /** No line is drawn twice. */
  lemma RendererEdgesDistinct(i: int, j: int)
    requires 0 <= i < j < |RendererEdges|
    ensures RendererEdges[i] != RendererEdges[j]
  {
  }

  /** Every edge of the table is drawn, in one direction or the other. */
  lemma EdgesMatchRenderer(a: int, b: int)
    ensures Adjacent(a, b) <==> (a, b) in RendererEdges || (b, a) in RendererEdges
  {
    if (a, b) in RendererEdges {
      var i :| 0 <= i < |RendererEdges| && RendererEdges[i] == (a, b);
      RendererEdgesAreEdges(i);
    } else if (b, a) in RendererEdges {
      var i :| 0 <= i < |RendererEdges| && RendererEdges[i] == (b, a);
      RendererEdgesAreEdges(i);
      AdjacencySymmetric(a, b);
    } else {
      DrawnEveryEdge(a, b);
    }
  }

  /** Each edge of the table, looked up node by node among the drawn lines. */
  lemma DrawnEveryEdge(a: int, b: int)
    ensures Adjacent(a, b) ==> (a, b) in RendererEdges || (b, a) in RendererEdges
  {
    if a == 0 {} else if a == 1 {} else if a == 2 {} else if a == 3 {}
    else if a == 4 {} else if a == 5 {} else if a == 6 {} else if a == 7 {}
    else if a == 8 {} else if a == 9 {} else if a == 10 {}
  }

  /** Degrees sum to twice the number of drawn lines (22 undirected edges). */
  lemma DegreeSum()
    ensures DegreeSumUpTo(NodeCount) == 2 * |RendererEdges|
  {
    assert DegreeSumUpTo(6) == 26;
  }

  /** Sum of the degrees of nodes `0..n-1`. */
  function DegreeSumUpTo(n: nat): nat {
    if n == 0 then 0 else DegreeSumUpTo(n - 1) + |Neighbours(n - 1)|
  }

  /** The starting board is well formed: eleven slots, slot `i` holding node `i`. */
  lemma InitialBoardWellFormed()
    ensures WellFormed(InitialBoard)
  {
  }

  /** The starting board holds the Hare on node 0 and Hounds on 8, 9 and 10,
      everything else empty. */
  lemma InitialBoardPlacement(k: int)
    requires 0 <= k < |InitialBoard|
    ensures InitialBoard[k].piece == Some(PieceType.Hare) <==> k == 0
    ensures InitialBoard[k].piece == Some(Hound) <==> k in {8, 9, 10}
  {
  }

  /** Hence the starting board carries one Hare, three Hounds and seven empty
      slots. */
  lemma InitialBoardPieces()
    ensures HasStartingPieces(InitialBoard)
  {
    InitialBoardOccupants();
    StartingSlotsPieces();
  }

  /** The occupants of the starting board, slot by slot. */
  lemma InitialBoardOccupants()
    ensures Occupants(InitialBoard) == StartingSlots
  {
  }

  const StartingSlots: seq<Option<PieceType>> := [
    Some(PieceType.Hare), None, None, None, None, None, None, None,
    Some(Hound), Some(Hound), Some(Hound)]

  lemma StartingSlotsPieces()
    ensures multiset(StartingSlots) == StartingPieces
  {
  }

  /** A board with the pieces of a game has eleven slots, and its occupants
      are exactly the pieces of a game: the counts leave no room for anything
      else. */
  lemma StartingPiecesCounts(b: Board)
    requires HasStartingPieces(b)
    ensures |b| == NodeCount
    ensures multiset(Occupants(b)) == StartingPieces
  {
    var m := multiset(Occupants(b));
    forall x: Option<PieceType>
      ensures m[x] == StartingPieces[x]
    {
      if x.Some? {
        assert x.value.Hare? || x.value.Hound?;
      }
    }
    assert m == StartingPieces;
    assert |Occupants(b)| == |m|;
  }

  /** A new game starts with three Track Hare charges, and the level cap is ten. */
  lemma GameConstants()
    ensures InitialTrackCharges == 3 && TotalLevels == 10
  {
  }
}
