// The board: occupancy, legal-move enumeration, the solved test and move
// application, first as functions of the board size and the piece sequence,
// then as the Board class whose methods compute them step by step.
module Boards {
  import opened Pieces

  // ---------------------------------------------------------------------
  // Occupancy

  /** Some piece covers cell `c` (Board.isOccupied). */
  predicate Occupied(ps: seq<Piece>, c: int)
  {
    exists i :: 0 <= i < |ps| && c in Cells(ps[i])
  }

  /** The first piece at or after index `i` that covers `c`, or -1. */
  function OwnerFrom(ps: seq<Piece>, c: int, i: nat): (r: int)
    requires i <= |ps|
    ensures r == -1 || i <= r < |ps|
    decreases |ps| - i
  {
    if i == |ps| then -1
    else if c in Cells(ps[i]) then i
    else OwnerFrom(ps, c, i + 1)
  }

  /** Board.pieceAt: the index of the first piece covering `c`, or -1. */
  function Owner(ps: seq<Piece>, c: int): (r: int)
    ensures -1 <= r < |ps|
  {
    OwnerFrom(ps, c, 0)
  }

  lemma {:induction false} OwnerFromIsFirst(ps: seq<Piece>, c: int, i: nat)
    requires i <= |ps|
    requires forall j :: 0 <= j < i ==> c !in Cells(ps[j])
    ensures OwnerFrom(ps, c, i) == -1 <==> !Occupied(ps, c)
    ensures OwnerFrom(ps, c, i) != -1 ==>
      i <= OwnerFrom(ps, c, i) < |ps| && c in Cells(ps[OwnerFrom(ps, c, i)]) &&
      forall j :: 0 <= j < OwnerFrom(ps, c, i) ==> c !in Cells(ps[j])
    decreases |ps| - i
  {
    if i < |ps| && c !in Cells(ps[i]) {
      OwnerFromIsFirst(ps, c, i + 1);
    }
  }

  /** The owner of a cell is the smallest index of a piece covering it, and
      there is none exactly when the cell is free. */
  lemma OwnerIsFirst(ps: seq<Piece>, c: int)
    ensures Owner(ps, c) == -1 <==> !Occupied(ps, c)
    ensures Owner(ps, c) != -1 ==>
      0 <= Owner(ps, c) < |ps| && c in Cells(ps[Owner(ps, c)]) &&
      forall j :: 0 <= j < Owner(ps, c) ==> c !in Cells(ps[j])
  {
    OwnerFromIsFirst(ps, c, 0);
  }

  // ---------------------------------------------------------------------
  // Legal moves

  /** The coordinate that bounds a slide: the column for a piece of stride 1,
      the row for any other piece. A piece can slide back by at most this
      much and forward by at most n - size - this much. */
  function SlideCoord(n: int, p: Piece): int
    requires n > 0
  {
    if p.stride == 1 then Rem(p.position, n) else p.position / n
  }

  /** The number of consecutive free cells on the piece's line, starting at
      its cell `k` and walking `dir` (1 or -1) at a time, taking at most
      `limit` of them. */
  function Run(ps: seq<Piece>, p: Piece, k: int, dir: int, limit: int): nat
    decreases if limit > 0 then limit else 0
  {
    if limit <= 0 || Occupied(ps, CellAt(p, k)) then 0
    else 1 + Run(ps, p, k + dir, dir, limit - 1)
  }

  /** How far the piece can slide back: the free cells behind its first cell. */
  function ReverseRun(n: int, ps: seq<Piece>, p: Piece): nat
    requires n > 0
  {
    Run(ps, p, -1, -1, SlideCoord(n, p))
  }

  /** How far the piece can slide forward: the free cells after its last cell. */
  function ForwardRun(n: int, ps: seq<Piece>, p: Piece): nat
    requires n > 0
  {
    Run(ps, p, p.size, 1, n - p.size - SlideCoord(n, p))
  }

  /** The reverse moves of piece `i` up to `t` steps, nearest first. */
  function Backward(i: int, t: nat): seq<Move>
  {
    if t == 0 then [] else Backward(i, t - 1) + [Move(i, -(t as int))]
  }

  /** The forward moves of piece `i` up to `t` steps, nearest first. */
  function Forward(i: int, t: nat): seq<Move>
  {
    if t == 0 then [] else Forward(i, t - 1) + [Move(i, t)]
  }

  lemma BackwardSnoc(i: int, t: nat)
    ensures Backward(i, t) + [Move(i, -(t + 1))] == Backward(i, t + 1)
  {
  }

  lemma ForwardSnoc(i: int, t: nat)
    ensures Forward(i, t) + [Move(i, t + 1)] == Forward(i, t + 1)
  {
  }

  /** The k-th reverse move is k + 1 steps back. */
  lemma {:induction false} BackwardAt(i: int, t: nat)
    ensures |Backward(i, t)| == t
    ensures forall k :: 0 <= k < t ==> Backward(i, t)[k] == Move(i, -(k + 1))
  {
    if t > 0 {
      BackwardAt(i, t - 1);
    }
  }

  /** The k-th forward move is k + 1 steps ahead. */
  lemma {:induction false} ForwardAt(i: int, t: nat)
    ensures |Forward(i, t)| == t
    ensures forall k :: 0 <= k < t ==> Forward(i, t)[k] == Move(i, k + 1)
  {
    if t > 0 {
      ForwardAt(i, t - 1);
    }
  }

  /** The moves of piece `i` in the order they are listed: -1, -2, ..., -r,
      then 1, 2, ..., f. */
  function PieceMoves(i: int, r: nat, f: nat): seq<Move>
  {
    Backward(i, r) + Forward(i, f)
  }

  function MovesOf(n: int, ps: seq<Piece>, i: int): seq<Move>
    requires n > 0 && 0 <= i < |ps|
  {
    if ps[i].fixed then []
    else PieceMoves(i, ReverseRun(n, ps, ps[i]), ForwardRun(n, ps, ps[i]))
  }

  /** The moves of the first `count` pieces, piece by piece. */
  function MovesBefore(n: int, ps: seq<Piece>, count: nat): seq<Move>
    requires n > 0 && count <= |ps|
  {
    if count == 0 then [] else MovesBefore(n, ps, count - 1) + MovesOf(n, ps, count - 1)
  }

  /** Board.moves: every legal slide of every movable piece. */
  function LegalMoves(n: int, ps: seq<Piece>): seq<Move>
    requires n > 0
  {
    MovesBefore(n, ps, |ps|)
  }

  /** Move `m` slides a movable piece by a nonzero count that stays within the
      free run behind it or the free run ahead of it. */
  predicate FreeSlide(n: int, ps: seq<Piece>, m: Move)
    requires n > 0
  {
    0 <= m.piece < |ps| && !ps[m.piece].fixed &&
    var r: int, f: int := ReverseRun(n, ps, ps[m.piece]), ForwardRun(n, ps, ps[m.piece]);
    -r <= m.steps <= -1 || 1 <= m.steps <= f
  }

  lemma {:induction false} RunFacts(ps: seq<Piece>, p: Piece, k: int, dir: int, limit: int)
    requires dir == 1 || dir == -1
    ensures Run(ps, p, k, dir, limit) <= Max(0, limit)
    ensures dir == 1 ==>
      forall j :: k <= j < k + Run(ps, p, k, dir, limit) ==> !Occupied(ps, CellAt(p, j))
    ensures dir == -1 ==>
      forall j :: k - Run(ps, p, k, dir, limit) < j <= k ==> !Occupied(ps, CellAt(p, j))
    ensures Run(ps, p, k, dir, limit) < limit ==>
      Occupied(ps, CellAt(p, k + dir * Run(ps, p, k, dir, limit)))
    decreases if limit > 0 then limit else 0
  {
    if limit > 0 && !Occupied(ps, CellAt(p, k)) {
      RunFacts(ps, p, k + dir, dir, limit - 1);
    }
  }

  /** The two walks stop exactly at the first occupied cell or at the grid
      limit, whichever comes first, and every cell they pass is free. */
  lemma RunsOfPiece(n: int, ps: seq<Piece>, p: Piece)
    requires n > 0
    ensures ReverseRun(n, ps, p) <= Max(0, SlideCoord(n, p))
    ensures forall j :: -(ReverseRun(n, ps, p) as int) <= j < 0 ==> !Occupied(ps, CellAt(p, j))
    ensures ReverseRun(n, ps, p) < SlideCoord(n, p) ==>
      Occupied(ps, CellAt(p, -1 - ReverseRun(n, ps, p) as int))
    ensures ForwardRun(n, ps, p) <= Max(0, n - p.size - SlideCoord(n, p))
    ensures forall j :: p.size <= j < p.size + ForwardRun(n, ps, p) ==> !Occupied(ps, CellAt(p, j))
    ensures ForwardRun(n, ps, p) < n - p.size - SlideCoord(n, p) ==>
      Occupied(ps, CellAt(p, p.size + ForwardRun(n, ps, p)))
  {
    RunFacts(ps, p, -1, -1, SlideCoord(n, p));
    RunFacts(ps, p, p.size, 1, n - p.size - SlideCoord(n, p));
  }

  lemma PieceMovesIff(i: int, r: nat, f: nat, m: Move)
    ensures m in PieceMoves(i, r, f) <==> m.piece == i && (-(r as int) <= m.steps <= -1 || 1 <= m.steps <= f)
  {
    var s := PieceMoves(i, r, f);
    BackwardAt(i, r);
    ForwardAt(i, f);
    if m.piece == i && -(r as int) <= m.steps <= -1 {
      assert s[-m.steps - 1] == m;
    }
    if m.piece == i && 1 <= m.steps <= f {
      assert s[r + m.steps - 1] == m;
    }
  }

  lemma {:induction false} MovesBeforeIff(n: int, ps: seq<Piece>, count: nat, m: Move)
    requires n > 0 && count <= |ps|
    ensures m in MovesBefore(n, ps, count) <==> 0 <= m.piece < count && m in MovesOf(n, ps, m.piece)
  {
    if count > 0 {
      var xs, ys := MovesBefore(n, ps, count - 1), MovesOf(n, ps, count - 1);
      MovesBeforeIff(n, ps, count - 1, m);
      MovesOfPiece(n, ps, count - 1, m);
      AppendBlockIff(xs, ys, m, count - 1);
    }
  }

  lemma AppendBlockIff(xs: seq<Move>, ys: seq<Move>, m: Move, i: int)
    requires m in ys ==> m.piece == i
    ensures m in xs + ys <==> m in xs || (m.piece == i && m in ys)
  {
  }

  /** Every move in piece `i`'s block names piece `i`. */
  lemma MovesOfPiece(n: int, ps: seq<Piece>, i: int, m: Move)
    requires n > 0 && 0 <= i < |ps|
    ensures m in MovesOf(n, ps, i) ==> m.piece == i
  {
    MovesOfOrdered(n, ps, i);
  }

  lemma MovesOfIff(n: int, ps: seq<Piece>, i: int, m: Move)
    requires n > 0 && 0 <= i < |ps|
    ensures m in MovesOf(n, ps, i) <==> m.piece == i && FreeSlide(n, ps, m)
  {
    if !ps[i].fixed {
      PieceMovesIff(i, ReverseRun(n, ps, ps[i]), ForwardRun(n, ps, ps[i]), m);
    }
  }

  /** A move is listed exactly when it slides a movable piece within one of its
      two free runs. */
  lemma LegalMovesIff(n: int, ps: seq<Piece>, m: Move)
    requires n > 0
    ensures m in LegalMoves(n, ps) <==> FreeSlide(n, ps, m)
  {
    MovesBeforeIff(n, ps, |ps|, m);
    if 0 <= m.piece < |ps| {
      MovesOfIff(n, ps, m.piece, m);
    }
  }

  /** No listed move is of a wall or of zero steps, and each stays within the
      grid limits of its piece's row or column. */
  lemma LegalMovesBounded(n: int, ps: seq<Piece>, m: Move)
    requires n > 0 && m in LegalMoves(n, ps)
    ensures 0 <= m.piece < |ps| && !ps[m.piece].fixed && m.steps != 0
    ensures m.steps < 0 ==> -SlideCoord(n, ps[m.piece]) <= m.steps
    ensures m.steps > 0 ==> m.steps <= n - ps[m.piece].size - SlideCoord(n, ps[m.piece])
  {
    LegalMovesIff(n, ps, m);
    RunsOfPiece(n, ps, ps[m.piece]);
  }

  /** Every cell the piece passes over during a listed move was free. */
  lemma LegalMoveSweepsFreeCells(n: int, ps: seq<Piece>, m: Move)
    requires n > 0 && m in LegalMoves(n, ps)
    ensures 0 <= m.piece < |ps|
    ensures m.steps < 0 ==>
      forall k :: m.steps <= k < 0 ==> !Occupied(ps, CellAt(ps[m.piece], k))
    ensures m.steps > 0 ==>
      forall k :: ps[m.piece].size <= k < ps[m.piece].size + m.steps ==> !Occupied(ps, CellAt(ps[m.piece], k))
  {
    LegalMovesIff(n, ps, m);
    RunsOfPiece(n, ps, ps[m.piece]);
  }

  // ---------------------------------------------------------------------
  // Order of the listing

  /** Within one piece: all reverse steps nearest first, then the forward
      steps nearest first. */
  predicate StepBefore(s: int, t: int)
  {
    (s < 0 && (t > 0 || t < s)) || (0 < s < t)
  }

  predicate MoveBefore(a: Move, b: Move)
  {
    a.piece < b.piece || (a.piece == b.piece && StepBefore(a.steps, b.steps))
  }

  predicate Ordered(ms: seq<Move>)
  {
    forall a, b :: 0 <= a < b < |ms| ==> MoveBefore(ms[a], ms[b])
  }

  lemma PieceMovesOrdered(i: int, r: nat, f: nat)
    ensures Ordered(PieceMoves(i, r, f))
  {
    var s := PieceMoves(i, r, f);
    BackwardAt(i, r);
    ForwardAt(i, f);
    forall a, b | 0 <= a < b < |s| ensures MoveBefore(s[a], s[b]) {
      if b < r {
        assert s[a].steps == -(a + 1) && s[b].steps == -(b + 1);
      } else if a < r {
        assert s[a].steps < 0 && s[b].steps > 0;
      } else {
        assert s[a].steps == a - r + 1 && s[b].steps == b - r + 1;
      }
    }
  }

  lemma {:induction false} MovesBeforeOrdered(n: int, ps: seq<Piece>, count: nat)
    requires n > 0 && count <= |ps|
    ensures Ordered(MovesBefore(n, ps, count))
    ensures forall a :: 0 <= a < |MovesBefore(n, ps, count)| ==> MovesBefore(n, ps, count)[a].piece < count
  {
    if count > 0 {
      MovesBeforeOrdered(n, ps, count - 1);
      var xs, ys := MovesBefore(n, ps, count - 1), MovesOf(n, ps, count - 1);
      MovesOfOrdered(n, ps, count - 1);
      OrderedAppend(xs, ys, count - 1);
      assert MovesBefore(n, ps, count) == xs + ys;
    }
  }

  /** The moves of one piece are ordered and all name that piece. */
  lemma MovesOfOrdered(n: int, ps: seq<Piece>, i: int)
    requires n > 0 && 0 <= i < |ps|
    ensures Ordered(MovesOf(n, ps, i))
    ensures forall b :: 0 <= b < |MovesOf(n, ps, i)| ==> MovesOf(n, ps, i)[b].piece == i
  {
    if !ps[i].fixed {
      var r, f := ReverseRun(n, ps, ps[i]), ForwardRun(n, ps, ps[i]);
      PieceMovesOrdered(i, r, f);
      BackwardAt(i, r);
      ForwardAt(i, f);
    }
  }


  /** Ordered moves of earlier pieces followed by ordered moves of piece `i`
      are ordered. */
  lemma OrderedAppend(xs: seq<Move>, ys: seq<Move>, i: int)
    requires Ordered(xs) && Ordered(ys)
    requires forall a :: 0 <= a < |xs| ==> xs[a].piece < i
    requires forall b :: 0 <= b < |ys| ==> ys[b].piece == i
    ensures Ordered(xs + ys)
  {
    var zs := xs + ys;
    forall a, b | 0 <= a < b < |zs| ensures MoveBefore(zs[a], zs[b]) {
      if b < |xs| {
        assert zs[a] == xs[a] && zs[b] == xs[b];
      } else if a >= |xs| {
        assert zs[a] == ys[a - |xs|] && zs[b] == ys[b - |xs|];
      } else {
        assert zs[a] == xs[a] && zs[b] == ys[b - |xs|];
      }
    }
  }

  /** The listing is ordered by piece index, then -1, -2, ..., then 1, 2, .... */
  lemma LegalMovesOrdered(n: int, ps: seq<Piece>)
    requires n > 0
    ensures Ordered(LegalMoves(n, ps))
  {
    MovesBeforeOrdered(n, ps, |ps|);
  }

  // ---------------------------------------------------------------------
  // Applying moves

  /** Board.doMove on the piece sequence: only the named piece moves. The
      source fails on an index outside the sequence; here nothing changes. */
  function ApplyMove(ps: seq<Piece>, m: Move): (qs: seq<Piece>)
    ensures |qs| == |ps|
    ensures forall j :: 0 <= j < |ps| && j != m.piece ==> qs[j] == ps[j]
  {
    if 0 <= m.piece < |ps| then ps[m.piece := Moved(ps[m.piece], m.steps)] else ps
  }

  /** Board.undoMove applies the move with the opposite count. */
  function Inverse(m: Move): Move
  {
    Move(m.piece, -m.steps)
  }

  /** Undoing a move right after doing it restores every piece. */
  lemma UndoAfterDo(ps: seq<Piece>, m: Move)
    ensures ApplyMove(ApplyMove(ps, m), Inverse(m)) == ps
  {
    if 0 <= m.piece < |ps| {
      MovedInverse(ps[m.piece], m.steps);
      assert ApplyMove(ApplyMove(ps, m), Inverse(m))[m.piece] == ps[m.piece];
    }
  }

  // ---------------------------------------------------------------------
  // Well-formed boards

  /** The piece lies inside the grid and inside its own row (stride 1) or
      column (stride n). */
  predicate InGrid(n: int, p: Piece)
    requires n > 0
  {
    p.size >= 1 && 0 <= p.position &&
    if p.stride == 1 then p.position / n < n && p.position % n + p.size <= n
    else p.stride == n && p.position / n + p.size <= n
  }

  predicate Disjoint(ps: seq<Piece>)
  {
    forall i, j :: 0 <= i < j < |ps| ==> Cells(ps[i]) !! Cells(ps[j])
  }

  /** No piece leaves the grid or wraps a row, and no two pieces overlap. */
  predicate WellFormed(n: int, ps: seq<Piece>)
  {
    n > 0 && (forall i :: 0 <= i < |ps| ==> InGrid(n, ps[i])) && Disjoint(ps)
  }

  /** Every cell of a piece inside the grid is a cell of the grid, in the
      piece's row (stride 1) or column (otherwise). */
  lemma InGridCells(n: int, p: Piece, k: int)
    requires n > 0 && InGrid(n, p) && 0 <= k < p.size
    ensures 0 <= CellAt(p, k) < n * n
    ensures p.stride == 1 ==>
      CellAt(p, k) / n == p.position / n && CellAt(p, k) % n == p.position % n + k
    ensures p.stride != 1 ==>
      CellAt(p, k) / n == p.position / n + k && CellAt(p, k) % n == p.position % n
  {
    if p.stride == 1 {
      assert CellAt(p, k) == p.position + k;
      RowCell(n, p.position, k);
    } else {
      assert CellAt(p, k) == p.position + k * n;
      ColumnCell(n, p.position, k);
    }
  }

  lemma RowCell(n: int, a: int, k: int)
    requires n > 0 && 0 <= a && a / n < n && 0 <= a % n + k < n
    ensures 0 <= a + k < n * n && (a + k) / n == a / n && (a + k) % n == a % n + k
  {
    FlatShiftColumn(n, a, k);
    FlatInGrid(n, a + k);
  }

  lemma ColumnCell(n: int, a: int, k: int)
    requires n > 0 && 0 <= a && 0 <= k && a / n + k < n
    ensures 0 <= a + k * n < n * n && (a + k * n) / n == a / n + k && (a + k * n) % n == a % n
  {
    FlatShiftRow(n, a, k);
    FlatInGrid(n, a + k * n);
  }

  /** A slide within the grid limits of the piece's row or column keeps the
      piece inside the grid and inside that row or column. */
  lemma SlideStaysInGrid(n: int, p: Piece, s: int)
    requires n > 0 && InGrid(n, p)
    requires -SlideCoord(n, p) <= s <= n - p.size - SlideCoord(n, p)
    ensures InGrid(n, Moved(p, s))
  {
    var q := Moved(p, s);
    FlatInGrid(n, p.position);
    if p.stride == 1 {
      assert q.position == p.position + s;
      FlatShiftColumn(n, p.position, s);
    } else {
      assert q.position == p.position + s * n;
      FlatShiftRow(n, p.position, s);
    }
    FlatInGrid(n, q.position);
  }

  /** A listed move keeps a well-formed board well formed: the moved piece
      stays in its row or column and lands only on its own old cells or on
      cells that were free. */
  lemma LegalMoveKeepsWellFormed(n: int, ps: seq<Piece>, m: Move)
    requires WellFormed(n, ps) && m in LegalMoves(n, ps)
    ensures WellFormed(n, ApplyMove(ps, m))
  {
    LegalMovesBounded(n, ps, m);
    var i, s := m.piece, m.steps;
    var q := Moved(ps[i], s);
    var qs := ApplyMove(ps, m);
    assert qs[i] == q;
    SlideStaysInGrid(n, ps[i], s);
    forall j | 0 <= j < |qs| && j != i ensures Cells(q) !! Cells(qs[j]) {
      MovedPieceApart(n, ps, m, j);
    }
    assert Disjoint(qs);
  }

  /** The moved piece shares no cell with any other piece: it covers only
      its own old cells and cells it swept, which were free. */
  lemma MovedPieceApart(n: int, ps: seq<Piece>, m: Move, j: int)
    requires WellFormed(n, ps) && m in LegalMoves(n, ps)
    requires 0 <= j < |ps| && j != m.piece
    ensures 0 <= m.piece < |ps| && Cells(Moved(ps[m.piece], m.steps)) !! Cells(ps[j])
  {
    LegalMoveSweepsFreeCells(n, ps, m);
    var i, s := m.piece, m.steps;
    var p := ps[i];
    var q := Moved(p, s);
    forall c | c in Cells(q) ensures c !in Cells(ps[j]) {
      var k :| 0 <= k < q.size && c == CellAt(q, k);
      assert c == CellAt(p, k + s);
      if 0 <= k + s < p.size {
        CellInCells(p, k + s);
        assert Cells(ps[i]) !! Cells(ps[j]);
      } else {
        assert !Occupied(ps, c);
      }
    }
  }

  // ---------------------------------------------------------------------
  // The solved test

  /** The coordinate of the primary piece's first cell along its direction of
      travel: its row when its stride is above 1, its column otherwise. */
  function ProgressCoord(n: int, p: Piece): int
    requires n > 0
  {
    if p.stride > 1 then p.position / n else Rem(p.position, n)
  }

  /** Board.isSolved: there is a primary piece (number 0) and its far end
      touches the far edge of the grid. */
  predicate Solved(n: int, ps: seq<Piece>)
    requires n > 0
  {
    |ps| > 0 && ProgressCoord(n, ps[0]) + ps[0].size == n
  }

  /** On a piece inside the grid, the solved test holds exactly when the
      primary piece's last cell is in the last column (horizontal piece) or
      the last row (vertical piece). */
  lemma SolvedIffAtFarEdge(n: int, ps: seq<Piece>)
    requires n > 0 && |ps| > 0 && InGrid(n, ps[0])
    ensures Solved(n, ps) <==>
      if ps[0].stride == 1 then CellAt(ps[0], ps[0].size - 1) % n == n - 1
      else CellAt(ps[0], ps[0].size - 1) / n == n - 1
  {
    InGridCells(n, ps[0], ps[0].size - 1);
  }

  // ---------------------------------------------------------------------
  // The board object

  class Board {
    var size: int
    var pieces: seq<Piece>
    var primaryPos: int

    ghost predicate Valid()
      reads this
    {
      size > 0
    }

    /** An empty board of the given size, before any piece is added. */
    constructor (size: int)
      requires size > 0
      ensures Valid() && this.size == size && pieces == [] && primaryPos == 0
    {
      this.size := size;
      pieces := [];
      primaryPos := 0;
    }

    method AddPiece(p: Piece)
      modifies this`pieces
      ensures pieces == old(pieces) + [p]
    {
      pieces := pieces + [p];
    }

    method DoMove(m: Move)
      requires 0 <= m.piece < |pieces|
      modifies this`pieces
      ensures pieces == ApplyMove(old(pieces), m)
    {
      pieces := pieces[m.piece := Moved(pieces[m.piece], m.steps)];
    }

    method UndoMove(m: Move)
      requires 0 <= m.piece < |pieces|
      modifies this`pieces
      ensures pieces == ApplyMove(old(pieces), Inverse(m))
    {
      pieces := pieces[m.piece := Moved(pieces[m.piece], -m.steps)];
    }

    /** Scans the pieces in order, and each piece's cells from its first. */
    method PieceAt(index: int) returns (r: int)
      ensures r == Owner(pieces, index)
    {
      for i := 0 to |pieces|
        invariant Owner(pieces, index) == OwnerFrom(pieces, index, i)
      {
        var piece := pieces[i];
        var p := piece.position;
        var j := 0;
        while j < piece.size
          invariant 0 <= j && (j <= piece.size || piece.size < 0)
          invariant p == CellAt(piece, j)
          invariant forall k :: 0 <= k < j ==> CellAt(piece, k) != index
        {
          if p == index {
            return i;
          }
          p := p + piece.stride;
          j := j + 1;
        }
        assert index !in Cells(piece);
      }
      return -1;
    }

    method IsOccupied(index: int) returns (b: bool)
      ensures b <==> Occupied(pieces, index)
    {
      var r := PieceAt(index);
      OwnerIsFirst(pieces, index);
      b := r >= 0;
    }

    /** Board.moves: for each movable piece, walks outward from it until an
        occupied cell or the grid limit, emitting one move per free cell. */
    method Moves() returns (ms: seq<Move>)
      requires Valid()
      ensures ms == LegalMoves(size, pieces)
    {
      ms := [];
      var n := size;
      for i := 0 to |pieces|
        invariant ms == MovesBefore(n, pieces, i)
      {
        var piece := pieces[i];
        if piece.fixed {
          continue;
        }
        var reverseSteps, forwardSteps;
        if piece.stride == 1 {
          var x := Rem(piece.position, n);
          reverseSteps, forwardSteps := -x, n - piece.size - x;
        } else {
          var y := piece.position / n;
          reverseSteps, forwardSteps := -y, n - piece.size - y;
        }
        var back := WalkBack(i, reverseSteps);
        var ahead := WalkForward(i, forwardSteps);
        ms := ms + back + ahead;
      }
    }

    /** The reverse walk of `moves()`: steps -1, -2, ... down to
        `reverseSteps`, stopping at the first occupied cell. */
    method WalkBack(i: int, reverseSteps: int) returns (ms: seq<Move>)
      requires Valid() && 0 <= i < |pieces|
      requires reverseSteps == -SlideCoord(size, pieces[i])
      ensures ms == Backward(i, ReverseRun(size, pieces, pieces[i]))
    {
      var piece := pieces[i];
      ms := [];
      CellAtNext(piece, -1);
      var idx := piece.position - piece.stride;
      var steps := -1;
      while steps >= reverseSteps
        invariant steps <= -1
        invariant idx == CellAt(piece, steps)
        invariant ms == Backward(i, -steps - 1)
        invariant ReverseRun(size, pieces, piece) ==
          -steps - 1 + Run(pieces, piece, steps, -1, steps + 1 - reverseSteps)
        decreases steps - reverseSteps
      {
        var occupied := IsOccupied(idx);
        if occupied {
          break;
        }
        BackwardSnoc(i, -steps - 1);
        CellAtNext(piece, steps - 1);
        ms := ms + [Move(i, steps)];
        idx := idx - piece.stride;
        steps := steps - 1;
      }
    }

    /** The forward walk of `moves()`: steps 1, 2, ... up to
        `forwardSteps`, stopping at the first occupied cell. */
    method WalkForward(i: int, forwardSteps: int) returns (ms: seq<Move>)
      requires Valid() && 0 <= i < |pieces|
      requires forwardSteps == size - pieces[i].size - SlideCoord(size, pieces[i])
      ensures ms == Forward(i, ForwardRun(size, pieces, pieces[i]))
    {
      var piece := pieces[i];
      ms := [];
      var idx := piece.position + piece.size * piece.stride;
      var steps := 1;
      while steps <= forwardSteps
        invariant steps >= 1
        invariant idx == CellAt(piece, piece.size + steps - 1)
        invariant ms == Forward(i, steps - 1)
        invariant ForwardRun(size, pieces, piece) ==
          steps - 1 + Run(pieces, piece, piece.size + steps - 1, 1, forwardSteps - steps + 1)
        decreases forwardSteps - steps
      {
        var occupied := IsOccupied(idx);
        if occupied {
          break;
        }
        ForwardSnoc(i, steps - 1);
        CellAtNext(piece, piece.size + steps - 1);
        ms := ms + [Move(i, steps)];
        idx := idx + piece.stride;
        steps := steps + 1;
      }
    }
  }
}
