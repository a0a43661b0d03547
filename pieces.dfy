// Pieces and moves of the sliding-block puzzle, and the integer arithmetic of
// the flat, row-major N×N index space they live in.
module Pieces {

  /** The presentation tag a piece carries ("cell", "filler" or the default
      "trigger"). The rules of the game never look at it. */
  datatype Kind = Cell | Filler | Trigger

  /** A straight run of `size` cells starting at flat index `position`, each
      `stride` after the previous one: stride 1 is a horizontal run, stride N
      a vertical one. A one-cell piece is a wall and never moves. */
  datatype Piece = Piece(position: int, size: int, stride: int, fixed: bool, kind: Kind)

  /** A request to slide piece number `piece` by `steps` strides; a negative
      count slides towards smaller flat indices. */
  datatype Move = Move(piece: int, steps: int)

  /** The piece constructor: a piece is fixed exactly when it has one cell. */
  function NewPiece(position: int, size: int, stride: int, kind: Kind): Piece
  {
    Piece(position, size, stride, size == 1, kind)
  }

  /** The flat index `k` strides from the piece's first cell; cells 0 to
      size - 1 are the piece itself, cells outside that range lie on its line. */
  function CellAt(p: Piece, k: int): int
  {
    p.position + k * p.stride
  }

  /** Neighbouring cells on a piece's line are one stride apart. */
  lemma CellAtNext(p: Piece, k: int)
    ensures CellAt(p, k + 1) == CellAt(p, k) + p.stride
  {
    assert (k + 1) * p.stride == k * p.stride + p.stride;
  }

  /** The cells the piece covers. */
  function Cells(p: Piece): set<int>
  {
    set k | 0 <= k < p.size :: CellAt(p, k)
  }

  lemma CellInCells(p: Piece, k: int)
    requires 0 <= k < p.size
    ensures CellAt(p, k) in Cells(p)
  {
  }

  /** A one-cell piece covers exactly its own position. */
  lemma OneCell(p: Piece)
    requires p.size == 1
    ensures Cells(p) == {p.position}
  {
    assert CellAt(p, 0) == p.position;
  }

  /** Piece.move: shift the piece by `steps` strides, without any check. */
  function Moved(p: Piece, steps: int): (q: Piece)
    ensures q.size == p.size && q.stride == p.stride && q.fixed == p.fixed && q.kind == p.kind
    ensures forall k :: CellAt(q, k) == CellAt(p, k + steps)
  {
    p.(position := p.position + p.stride * steps)
  }

  /** Moving back by the same number of steps restores the piece exactly. */
  lemma MovedInverse(p: Piece, steps: int)
    ensures Moved(Moved(p, steps), -steps) == p
  {
    assert p.stride * steps + p.stride * -steps == 0;
  }

  /** Piece.pickAxis: the component of a pointer offset that lies along the
      piece's own axis. */
  function PickAxis(p: Piece, x: int, y: int): int
  {
    if p.stride == 1 then x else y
  }

  /** A pointer offset of x columns and y rows moves the piece along its own
      axis only: by x cells when horizontal, by y rows when vertical. */
  lemma PickAxisProjects(n: int, p: Piece, x: int, y: int)
    requires p.stride == 1 || p.stride == n
    ensures Moved(p, PickAxis(p, x, y)).position ==
      p.position + (if p.stride == 1 then x else y * n)
  {
  }

  /** JavaScript's `%` on integers, which truncates towards zero (Dafny's `%`
      is Euclidean and never negative). */
  function Rem(a: int, n: int): (r: int)
    requires n > 0
    ensures a >= 0 ==> r == a % n
  {
    if a >= 0 then a % n else -((-a) % n)
  }

  /** The truncating remainder takes the sign of the dividend, stays below n
      in magnitude, and differs from the dividend by a multiple of n. */
  lemma RemSpec(a: int, n: int)
    requires n > 0
    ensures a >= 0 ==> 0 <= Rem(a, n) < n
    ensures a < 0 ==> -n < Rem(a, n) <= 0
    ensures (a - Rem(a, n)) % n == 0
  {
    if a >= 0 {
      DivModUnique(a - a % n, n, a / n, 0);
    } else {
      DivModUnique(a + (-a) % n, n, -((-a) / n), 0);
    }
  }

  /** Division with remainder is unique: the row and column of a flat index. */
  lemma DivModUnique(a: int, n: int, q: int, r: int)
    requires n > 0 && 0 <= r < n && a == q * n + r
    ensures a / n == q && a % n == r
  {
    var q', r' := a / n, a % n;
    assert a == q' * n + r';
    assert (q - q') * n == r' - r;
    if q > q' {
      MulAtLeast(q - q', n);
    } else if q < q' {
      MulAtLeast(q' - q, n);
    }
  }

  /** Moving `d` columns within a row keeps the row and shifts the column. */
  lemma FlatShiftColumn(n: int, a: int, d: int)
    requires n > 0 && 0 <= a % n + d < n
    ensures (a + d) / n == a / n && (a + d) % n == a % n + d
  {
    DivModUnique(a + d, n, a / n, a % n + d);
  }

  /** Moving `d` rows keeps the column and shifts the row. */
  lemma FlatShiftRow(n: int, a: int, d: int)
    requires n > 0
    ensures (a + d * n) / n == a / n + d && (a + d * n) % n == a % n
  {
    assert a + d * n == (a / n + d) * n + a % n by {
      assert (a / n + d) * n == (a / n) * n + d * n;
    }
    DivModUnique(a + d * n, n, a / n + d, a % n);
  }

  /** A flat index is a cell of the n×n grid exactly when its row is. */
  lemma FlatInGrid(n: int, a: int)
    requires n > 0
    ensures 0 <= a < n * n <==> 0 <= a / n < n
  {
    var q, r := a / n, a % n;
    assert a == q * n + r;
    if 0 <= q < n {
      MulMonotone(0, q, n);
      MulMonotone(q, n - 1, n);
      assert (n - 1) * n == n * n - n;
    }
    if q < 0 {
      MulMonotone(q, -1, n);
    }
    if q >= n {
      MulMonotone(n, q, n);
    }
  }

  lemma MulAtLeast(x: int, n: int)
    requires x >= 1 && n > 0
    ensures x * n >= n
  {
    assert x * n == (x - 1) * n + n;
    assert (x - 1) * n >= 0;
  }

  lemma MulMonotone(a: int, b: int, n: int)
    requires a <= b && n >= 0
    ensures a * n <= b * n
  {
    assert b * n - a * n == (b - a) * n;
  }

  function Min(a: int, b: int): int { if a < b then a else b }
  function Max(a: int, b: int): int { if a < b then b else a }
}
