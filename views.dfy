// The view's game logic: turning a press and a release into at most one
// committed move, and the undo history of committed moves.
module Views {
  import opened Pieces
  import opened Boards

  /** The pieces after applying the moves of `ms` in order. */
  function Replay(ps: seq<Piece>, ms: seq<Move>): seq<Piece>
  {
    if ms == [] then ps else ApplyMove(Replay(ps, ms[..|ms| - 1]), ms[|ms| - 1])
  }

  /** Every move of `ms` was a legal move of the board it was applied to. */
  predicate History(n: int, ps: seq<Piece>, ms: seq<Move>)
  {
    ms == [] ||
    (n > 0 && History(n, ps, ms[..|ms| - 1]) && ms[|ms| - 1] in LegalMoves(n, Replay(ps, ms[..|ms| - 1])))
  }

  lemma ReplaySnoc(n: int, ps: seq<Piece>, ms: seq<Move>, m: Move)
    ensures Replay(ps, ms + [m]) == ApplyMove(Replay(ps, ms), m)
    ensures History(n, ps, ms + [m]) <==>
      n > 0 && History(n, ps, ms) && m in LegalMoves(n, Replay(ps, ms))
  {
    assert (ms + [m])[..|ms|] == ms;
  }

  /** Replaying a history of legal moves from a well-formed board keeps it
      well formed: pieces stay in their rows and columns and never overlap. */
  lemma {:induction false} ReachableWellFormed(n: int, ps: seq<Piece>, ms: seq<Move>)
    requires WellFormed(n, ps) && History(n, ps, ms)
    ensures WellFormed(n, Replay(ps, ms))
    ensures |Replay(ps, ms)| == |ps|
  {
    if ms != [] {
      var init := ms[..|ms| - 1];
      ReachableWellFormed(n, ps, init);
      LegalMoveKeepsWellFormed(n, Replay(ps, init), ms[|ms| - 1]);
    }
  }

  /** The clamp applied on release: into [lo, hi], upper bound first. */
  function Clamp(s: int, lo: int, hi: int): (r: int)
    ensures lo <= hi ==> lo <= r <= hi
    ensures lo <= s <= hi ==> r == s
    ensures lo <= hi && s >= hi ==> r == hi
    ensures lo <= hi && s <= lo ==> r == lo
  {
    Max(Min(s, hi), lo)
  }

  class View {
    var board: Board
    var dragPiece: int
    var dragMin: int
    var dragMax: int
    var undoStack: seq<Move>
    /** The pieces as they were when the undo stack was last empty. */
    ghost var baseline: seq<Piece>

    ghost predicate Valid()
      reads this, board
    {
      board.Valid() && History(board.size, baseline, undoStack) &&
      Replay(baseline, undoStack) == board.pieces
    }

    /** The dragged piece's tight step interval is the one taken on press. */
    ghost predicate DragReady()
      reads this, board
    {
      board.Valid() && 0 <= dragPiece < |board.pieces| && !board.pieces[dragPiece].fixed &&
      TightInterval(board.size, board.pieces, dragPiece, dragMin, dragMax)
    }

    /** A view showing board `b` with an empty history and nothing grabbed. */
    constructor (b: Board)
      requires b.Valid()
      ensures Valid() && board == b && undoStack == [] && baseline == b.pieces
      ensures dragPiece == -1 && dragMin == 0 && dragMax == 0
    {
      board := b;
      dragPiece := -1;
      dragMin := 0;
      dragMax := 0;
      undoStack := [];
      baseline := b.pieces;
    }

    /** setBoard: a new board with an empty history. */
    method SetBoard(b: Board)
      requires b.Valid()
      modifies this`board, this`undoStack, this`baseline
      ensures Valid() && board == b && undoStack == [] && baseline == b.pieces
    {
      board := b;
      undoStack := [];
      baseline := b.pieces;
    }

    /** mousePressed at cell `cell`: grab the piece covering it, and record
        the smallest and largest step of its legal moves, widened to 0. An
        empty cell or a wall grabs nothing. */
    method MousePressed(cell: int)
      requires Valid()
      modifies this`dragPiece, this`dragMin, this`dragMax
      ensures Valid()
      ensures var o := Owner(board.pieces, cell);
        if o < 0 || board.pieces[o].fixed then
          dragPiece == -1 && dragMin == old(dragMin) && dragMax == old(dragMax)
        else
          dragPiece == o && TightInterval(board.size, board.pieces, o, dragMin, dragMax)
      ensures dragPiece != -1 ==> DragReady()
    {
      dragPiece := board.PieceAt(cell);
      OwnerIsFirst(board.pieces, cell);
      if dragPiece < 0 {
        return;
      }
      var piece := board.pieces[dragPiece];
      if piece.fixed {
        dragPiece := -1;
        return;
      }
      dragMin := 0;
      dragMax := 0;
      var ms := board.Moves();
      ghost var grabbed := dragPiece;
      for k := 0 to |ms|
        invariant dragPiece == grabbed
        invariant dragMin <= 0 <= dragMax
        invariant forall j :: 0 <= j < k && ms[j].piece == dragPiece ==> dragMin <= ms[j].steps <= dragMax
        invariant dragMin == 0 || Move(dragPiece, dragMin) in ms[..k]
        invariant dragMax == 0 || Move(dragPiece, dragMax) in ms[..k]
      {
        var m := ms[k];
        assert ms[..k + 1] == ms[..k] + [m];
        if m.piece == dragPiece {
          dragMin := Min(dragMin, m.steps);
          dragMax := Max(dragMax, m.steps);
        }
      }
      assert ms[..|ms|] == ms;
      forall m | m in ms && m.piece == dragPiece
        ensures dragMin <= m.steps <= dragMax
      {
        var j :| 0 <= j < |ms| && ms[j] == m;
      }
    }

    /** mouseReleased with the rounded pointer offset (dx, dy) since the
        press: the offset along the grabbed piece's axis, clamped to the
        recorded interval, is committed if it is one of the piece's legal
        moves; either way the piece is let go. */
    method MouseReleased(dx: int, dy: int)
      requires Valid()
      modifies this`dragPiece, this`undoStack, board`pieces
      ensures Valid() && baseline == old(baseline)
      ensures old(dragPiece) < 0 || old(dragPiece) >= |old(board.pieces)| ==>
        dragPiece == old(dragPiece) && board.pieces == old(board.pieces) && undoStack == old(undoStack)
      ensures 0 <= old(dragPiece) < |old(board.pieces)| ==>
        var m := Move(old(dragPiece), Clamp(PickAxis(old(board.pieces)[old(dragPiece)], dx, dy), dragMin, dragMax));
        dragPiece == -1 &&
        if m in LegalMoves(board.size, old(board.pieces)) then
          board.pieces == ApplyMove(old(board.pieces), m) && undoStack == old(undoStack) + [m]
        else
          board.pieces == old(board.pieces) && undoStack == old(undoStack)
    ensures old(DragReady()) ==>
      var m := Move(old(dragPiece), Clamp(PickAxis(old(board.pieces)[old(dragPiece)], dx, dy), dragMin, dragMax));
      (m.steps == 0 ==> board.pieces == old(board.pieces) && undoStack == old(undoStack)) &&
      (m.steps != 0 ==> board.pieces == ApplyMove(old(board.pieces), m) && undoStack == old(undoStack) + [m])
    {
      if DragReady() {
        ClampedStepIsLegal(board.size, board.pieces, dragPiece, dragMin, dragMax,
          Clamp(PickAxis(board.pieces[dragPiece], dx, dy), dragMin, dragMax));
      }
      if dragPiece < 0 || dragPiece >= |board.pieces| {
        return;
      }
      var piece := board.pieces[dragPiece];
      var steps := PickAxis(piece, dx, dy);
      steps := Min(steps, dragMax);
      steps := Max(steps, dragMin);
      var ms := board.Moves();
      for k := 0 to |ms|
        invariant board.pieces == old(board.pieces) && undoStack == old(undoStack)
        invariant Move(dragPiece, steps) !in ms[..k]
      {
        var m := ms[k];
        assert ms[..k + 1] == ms[..k] + [m];
        if m.piece == dragPiece && m.steps == steps {
          LegalMovesBounded(board.size, board.pieces, m);
          ReplaySnoc(board.size, baseline, undoStack, m);
          board.DoMove(m);
          undoStack := undoStack + [m];
          break;
        }
      }
      assert ms[..|ms|] == ms;
      dragPiece := -1;
    }

    /** undo: take back the most recent move, if there is one. */
    method Undo()
      requires Valid()
      modifies this`undoStack, board`pieces
      ensures Valid() && baseline == old(baseline)
      ensures old(undoStack) == [] ==> undoStack == [] && board.pieces == old(board.pieces)
      ensures old(undoStack) != [] ==>
        undoStack == old(undoStack)[..|old(undoStack)| - 1] &&
        board.pieces == ApplyMove(old(board.pieces), Inverse(old(undoStack)[|old(undoStack)| - 1]))
      ensures board.pieces == Replay(baseline, undoStack)
    {
      if |undoStack| > 0 {
        PopOne();
      }
    }

    /** reset: take back every move, restoring the board as it was when the
        history was last empty. */
    method Reset()
      requires Valid()
      modifies this`undoStack, board`pieces
      ensures Valid() && baseline == old(baseline)
      ensures undoStack == [] && board.pieces == baseline
    {
      while |undoStack| > 0
        invariant Valid() && baseline == old(baseline)
        decreases |undoStack|
      {
        PopOne();
      }
    }

    /** Pops the last move and undoes it on the board. */
    method PopOne()
      requires Valid() && undoStack != []
      modifies this`undoStack, board`pieces
      ensures Valid() && baseline == old(baseline)
      ensures undoStack == old(undoStack)[..|old(undoStack)| - 1]
      ensures board.pieces == ApplyMove(old(board.pieces), Inverse(old(undoStack)[|old(undoStack)| - 1]))
    {
      var m := undoStack[|undoStack| - 1];
      var init := undoStack[..|undoStack| - 1];
      LegalMovesBounded(board.size, Replay(baseline, init), m);
      UndoAfterDo(Replay(baseline, init), m);
      undoStack := init;
      board.UndoMove(m);
    }
  }

  /** The interval [lo, hi] is the tight hull of 0 and the steps of piece
      `i`'s legal moves: it contains all of them, and each end is 0 or the
      step of one of them. */
  ghost predicate TightInterval(n: int, ps: seq<Piece>, i: int, lo: int, hi: int)
  {
    n > 0 && lo <= 0 <= hi &&
    (forall m :: m in LegalMoves(n, ps) && m.piece == i ==> lo <= m.steps <= hi) &&
    (lo == 0 || Move(i, lo) in LegalMoves(n, ps)) &&
    (hi == 0 || Move(i, hi) in LegalMoves(n, ps))
  }

  /** The recorded interval is exactly the free run on each side of the
      piece: back to the nearest obstacle or the grid edge, and forward. */
  lemma TightIntervalIsRuns(n: int, ps: seq<Piece>, i: int, lo: int, hi: int)
    requires n > 0 && 0 <= i < |ps| && !ps[i].fixed
    ensures TightInterval(n, ps, i, lo, hi) <==>
      lo == -(ReverseRun(n, ps, ps[i]) as int) && hi == ForwardRun(n, ps, ps[i])
  {
    var r: int, f: int := ReverseRun(n, ps, ps[i]), ForwardRun(n, ps, ps[i]);
    LegalMovesIff(n, ps, Move(i, lo));
    LegalMovesIff(n, ps, Move(i, hi));
    LegalMovesIff(n, ps, Move(i, -r));
    LegalMovesIff(n, ps, Move(i, f));
    forall m | m in LegalMoves(n, ps) && m.piece == i
      ensures -r <= m.steps <= f
    {
      LegalMovesIff(n, ps, m);
    }
  }

  /** With the interval taken on press, a clamped step is a legal move of
      the piece exactly when it is not 0. */
  lemma ClampedStepIsLegal(n: int, ps: seq<Piece>, i: int, lo: int, hi: int, s: int)
    requires TightInterval(n, ps, i, lo, hi) && lo <= s <= hi
    ensures Move(i, s) in LegalMoves(n, ps) <==> s != 0
  {
    LegalMovesIff(n, ps, Move(i, s));
    LegalMovesIff(n, ps, Move(i, lo));
    LegalMovesIff(n, ps, Move(i, hi));
  }
}
