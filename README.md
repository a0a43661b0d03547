# Rush: a verified model of the sliding-block puzzle engine

This project models the game engine of the Rush Hour style puzzle in
`web/app.js` and proves properties about it. The grid is an N×N board in a
flat, row-major index space. A piece is a straight run of cells with a
stride of 1 (horizontal) or N (vertical). One-cell pieces are walls and
never move. Piece 0 is the primary piece, and the puzzle is solved once it
reaches the far edge along its axis.

The model has four modules:

- `Pieces` (`pieces.dfy`) holds the piece and move values. It also holds
  `Piece.move`, `Piece.pickAxis`, and JavaScript's truncating `%`.
- `Boards` (`boards.dfy`) states occupancy, legal moves, the solved test and
  well-formedness as functions of the board size and the piece sequence. It
  also has the `Board` class, whose methods are the source's imperative
  parts: `PieceAt` scans the pieces and their cells, and `Moves` makes the
  two outward walks. Each method is proved equal to its specification
  function.
- `Descriptor` (`descriptor.dfy`) covers the `Board` constructor. `Parse` is
  the descriptor parser as a function. `NewBoard` is the constructor as the
  source writes it: it groups cells in a map, sorts the labels, checks each
  label with a gap loop, and pushes the pieces and walls onto a fresh
  `Board`. `NewBoard` is proved to agree with `Parse`.
- `Views` (`views.dfy`) holds the `View` class: press and release gestures
  and the undo stack. A ghost field `baseline` keeps the pieces as they were
  when the stack was last empty. The class invariant states that the stack
  is a history of legal moves that replays `baseline` to the current board.

JavaScript numbers are modelled as unbounded integers. Every quantity in
the core is a small integer: cell indices, sizes, and signed step counts
bounded by N. Dafny's `/` matches `Math.floor(a / n)` for a non-negative
`a` and `n > 0`, and `Pieces.Rem` is JavaScript's `%`.

## Model

| member | source | states |
|---|---|---|
| Pieces.Moved | web/app.js:15-17 | moving a piece keeps its size, stride, fixedness and tag, and shifts every cell of its line by `steps` strides |
| Pieces.MovedInverse | web/app.js:15-17 | moving by `-steps` after `steps` gives back exactly the original piece |
| Pieces.NewPiece | web/app.js:7-13 | the piece constructor; a piece is fixed exactly when it has one cell (`Descriptor.LabelPieceOkIff` shows parsed runs are never fixed, `Descriptor.Walls` that walls are) |
| Pieces.PickAxis | web/app.js:40-46 | the offset along the piece's axis; `Pieces.PickAxisProjects` states that moving by it shifts a horizontal piece by the x offset and a vertical one by y rows |
| Pieces.PickAxisProjects | web/app.js:40-46 | moving a piece by the picked component shifts it by x cells when horizontal and by y rows when vertical |
| Pieces.Rem | web/app.js:124 | JavaScript's truncating `%`: it agrees with the Euclidean remainder on non-negative operands; `Pieces.RemSpec` states the rest |
| Pieces.RemSpec | web/app.js:124 | the truncating remainder takes the sign of the dividend, stays below n in magnitude, and differs from the dividend by a multiple of n |
| Boards.Owner | web/app.js:152-164 | the owner of a cell is -1 or a valid piece index |
| Boards.OwnerIsFirst | web/app.js:152-164 | the owner is -1 exactly when no piece covers the cell; otherwise it covers the cell and no smaller index does |
| Boards.Board.PieceAt | web/app.js:152-164 | the nested scan returns the smallest index of a piece covering the cell, or -1 |
| Boards.Board.IsOccupied | web/app.js:166-168 | true exactly when some piece covers the cell |
| Boards.Occupied | web/app.js:166-168 | some piece covers the cell; `Boards.OwnerIsFirst` ties it to pieceAt returning -1 |
| Boards.Board.constructor | web/app.js:57-59 | a board of the given size with no pieces and primary position 0 |
| Boards.Board.AddPiece | web/app.js:129-131 | the piece is appended at the end of the sequence |
| Boards.Board.DoMove | web/app.js:133-135 | the new pieces are the old ones with the move applied |
| Boards.Board.UndoMove | web/app.js:137-139 | the new pieces are the old ones with the inverse move applied |
| Boards.ApplyMove | web/app.js:133-135 | applying a move changes only the moved piece, and the count of pieces stays the same |
| Boards.UndoAfterDo | web/app.js:133-139 | undoing a move right after doing it restores every piece |
| Boards.Inverse | web/app.js:137-139 | the move undoMove applies: same piece, negated steps; `Boards.UndoAfterDo` states that it takes back the move |
| Boards.Board.Moves | web/app.js:170-207 | the loops emit exactly the legal-move list, whose members and order `LegalMovesIff` and `LegalMovesOrdered` state |
| Boards.LegalMoves | web/app.js:170-207 | the move list of `moves()`; its members are stated by `Boards.LegalMovesIff`, its order by `Boards.LegalMovesOrdered`, its bounds by `Boards.LegalMovesBounded` |
| Boards.Board.WalkBack | web/app.js:189-196 | the backward walk emits -1, -2, … down to the free run behind the piece |
| Boards.Board.WalkForward | web/app.js:197-204 | the forward walk emits 1, 2, … up to the free run ahead of the piece |
| Boards.RunsOfPiece | web/app.js:178-204 | the free run behind is at most the column (stride 1) or row, and the run ahead at most N - size minus it; every cell a run covers is free; a run that stops short of its limit stops at an occupied cell |
| Boards.LegalMovesIff | web/app.js:170-207 | a move is listed exactly when it slides a movable piece by -1..-r or 1..f, r and f being its free runs |
| Boards.LegalMovesBounded | web/app.js:173-188 | no listed move is of a wall or of zero steps; backward steps reach at most the column (stride 1) or row, and forward steps at most N - size minus it |
| Boards.LegalMovesOrdered | web/app.js:171-207 | the list is ordered by piece index, then -1, -2, …, then 1, 2, … |
| Boards.LegalMoveSweepsFreeCells | web/app.js:189-204 | every cell the piece passes over during a listed move was unoccupied |
| Boards.LegalMoveKeepsWellFormed | web/app.js:170-207 | on a board whose pieces are inside their rows or columns and do not overlap, any listed move keeps both properties |
| Boards.SolvedIffAtFarEdge | web/app.js:141-150 | when piece 0 lies inside the grid, the board is solved exactly when that piece's last cell is in the last column (stride 1) or the last row |
| Boards.Solved | web/app.js:141-150 | isSolved: there is a piece 0 whose far end touches the far edge; `Boards.SolvedIffAtFarEdge` states it in terms of the last cell |
| Descriptor.ISqrt | web/app.js:61 | the integer square root: r² ≤ len < (r + 1)² |
| Descriptor.ISqrtSquaredIsSquare | web/app.js:66-69 | the root squared equals the length exactly when the length is a perfect square |
| Descriptor.IndicesSpec | web/app.js:72-80 | a label's cell list is strictly increasing, and holds exactly the cells carrying that label |
| Descriptor.FirstSeenSpec | web/app.js:72-83 | the label list holds each character of the descriptor exactly once |
| Descriptor.SortChars | web/app.js:83-84 | the sorted labels are strictly ascending and are the same set of characters |
| Descriptor.LabelsSpec | web/app.js:82-84 | the labels are strictly ascending and are exactly the characters of the descriptor |
| Descriptor.LabelPieceOkIff | web/app.js:93-105 | a label's cells pass the check exactly when they form a straight run of at least two cells spaced 1 or N apart; the piece then starts at the first cell, with the cell count as size and the first gap as stride, and is not fixed; a failure is PieceTooSmall below two cells and InvalidShape otherwise |
| Descriptor.LabelPiece | web/app.js:93-106 | the per-label check; `Descriptor.LabelPieceOkIff` states when it succeeds, with which piece, and which error it reports |
| Descriptor.Movables | web/app.js:87-110 | the label loop fails only with PieceTooSmall or InvalidShape |
| Descriptor.MovablesOkIff | web/app.js:87-110 | the label loop succeeds exactly when every movable label passes its check |
| Descriptor.MovablesFirstError | web/app.js:87-110 | the first movable label that fails decides the error |
| Descriptor.MovablesValue | web/app.js:87-110 | on success there is one piece per movable label, in label order, each being that label's piece |
| Descriptor.MovableLabelsSpec | web/app.js:86-92 | the labels that become pieces are strictly ascending and are exactly the descriptor's characters other than '.', 'o' and 'x' |
| Descriptor.Walls | web/app.js:112-119 | one wall per 'x' cell, in cell order: each is fixed and covers exactly its own cell |
| Descriptor.PrimaryPos | web/app.js:119-126 | the exit line; `Descriptor.ParsePieces` states it is piece 0's column for stride > 1, else its row, and 0 with no pieces |
| Descriptor.Parse | web/app.js:57-127 | the Board constructor as a function; `Descriptor.ParseEmptyIff`, `Descriptor.ParseNotSquareIff`, `Descriptor.ParseOkIff`, `Descriptor.ParseFirstBadLabel` and `Descriptor.ParsePieces` state its errors and its layout |
| Descriptor.ParseEmptyIff | web/app.js:61-64 | the empty descriptor, and only it, fails as empty |
| Descriptor.ParseNotSquareIff | web/app.js:66-69 | a non-empty descriptor fails as not square exactly when its length is not a perfect square |
| Descriptor.ParseOkIff | web/app.js:57-110 | a descriptor is accepted exactly when it is non-empty, of square length, and every movable label's cells form a straight run |
| Descriptor.ParseFirstBadLabel | web/app.js:86-105 | when the smallest bad label has fewer than two cells the error is PieceTooSmall; otherwise it is InvalidShape |
| Descriptor.ParsePieces | web/app.js:82-126 | the accepted layout satisfies `PiecesOf`: size N with N² cells; movable pieces come first in ascending label order, each spanning its label's run and not fixed; then one fixed wall per 'x' cell in cell order; primaryPos is piece 0's column for stride > 1, else its row, and 0 with no pieces |
| Descriptor.ParsedPieceCells | web/app.js:93-119 | for pieces as `PiecesOf` lays them out, every cell of a piece lies in the descriptor and carries that piece's label, or 'x' for a wall; the movable pieces come before the walls |
| Descriptor.RunPieceCells | web/app.js:93-108 | the cells of a piece built from a straight run are that run's cells |
| Descriptor.RunInGrid | web/app.js:93-108 | a run whose first and last cells lie in the grid fits in its row or column, unless it is horizontal and wraps |
| Descriptor.ParsedPieceInGrid | web/app.js:93-119 | a parsed piece lies inside its row or column exactly when it does not wrap |
| Descriptor.ParsedPiecesApart | web/app.js:72-119 | two parsed pieces share no cell |
| Descriptor.ParseWellFormedUnlessWrapped | web/app.js:57-126 | parsed pieces never overlap, and the layout is well formed exactly when no horizontal piece wraps past a row end |
| Descriptor.ParseAcceptsWrappedRun | web/app.js:93-105 | "oAAo" is accepted with a piece that leaves its row, and the resulting board is not well formed |
| Descriptor.ParseStrict | web/app.js:93-105 | the parser with the row check added; `Descriptor.ParseStrictWellFormed` states that it accepts exactly the well-formed layouts |
| Descriptor.ParseStrictWellFormed | web/app.js:93-105 | the corrected parser accepts exactly the descriptors whose layout is well formed; it yields the same layout, and otherwise fails with InvalidShape |
| Descriptor.GroupCells | web/app.js:71-80 | the map sends each character of the descriptor to its cell list, and the keys keep first-occurrence order |
| Descriptor.AddMovables | web/app.js:86-110 | the label loop returns what the label specification yields, and on success appends exactly those pieces |
| Descriptor.AddWalls | web/app.js:112-119 | the wall loop appends one wall per cell, in order |
| Descriptor.NewBoard | web/app.js:57-127 | the constructor fails with the parser's error, or builds a fresh board with the parser's size, pieces and primary position |
| Views.Clamp | web/app.js:325-326 | the clamped step lies in the interval; a step already inside it is unchanged, a step at or beyond an end becomes that end, so an overshooting drag picks the farthest step recorded on press |
| Views.ReachableWellFormed | web/app.js:318-336 | a board reached by legal moves from a well-formed board is well formed |
| Views.View.constructor | web/app.js:211-219 | a view over the given board, with an empty history and nothing grabbed |
| Views.View.SetBoard | web/app.js:237-242 | the new board is shown with an empty history, which becomes the baseline |
| Views.View.MousePressed | web/app.js:290-314 | an empty cell or a wall grabs nothing and keeps the old interval; otherwise it grabs the covering piece and records the tight interval of its legal steps, widened to 0 |
| Views.TightIntervalIsRuns | web/app.js:306-313 | the recorded interval is exactly [-r, f], r and f being the piece's free runs |
| Views.View.MouseReleased | web/app.js:316-336 | with nothing grabbed, nothing changes; otherwise the axis offset is clamped, the matching legal move is applied and pushed once if there is one, and the piece is let go; after a press, a step of 0 commits nothing and any other step commits exactly that move |
| Views.ClampedStepIsLegal | web/app.js:324-334 | within the interval recorded on press, a step is a legal move of the piece exactly when it is not 0 |
| Views.View.PopOne | web/app.js:372-374 | the last move is popped and its inverse applied, keeping the history invariant |
| Views.View.Undo | web/app.js:379-386 | an empty stack changes nothing; otherwise the last move is popped and undone, and the board stays the baseline replayed by the remaining stack |
| Views.View.Reset | web/app.js:370-377 | the stack is emptied and every piece is back at its baseline position |

## Left out

- Rendering is not modelled. This covers `Piece.draw`, `View.draw`, colours, the exit arrow, and `setup`/`windowResized`, all of which only draw on a canvas.
- Pointer geometry is not modelled. This covers `computeScale`, `mouseVector`, `mouseIndex`, `mouseDragged`, the touch wrappers and the `Math.round` of a float offset. `MousePressed` takes the cell index as input, and `MouseReleased` takes the already-rounded integer offset.
- `changed()`, `keyPressed` and the jQuery handlers are not modelled; they only update page counters or dispatch keys. `movesRequired` is dropped from `SetBoard` for the same reason.
- `randomBoard` and `parseHash` are not modelled. They read the network or `location.hash` and wrap the parser in a try/catch fallback.
- The fixture boards (`andBoard`, `orBoard`, `finalBoard`) are not modelled. solver.go is not part of this model.
- Views.View.constructor: the source's constructor always builds the default 6×6 board; the model takes the board as a parameter instead.
- Presentation tags: every parsed piece gets the default `"trigger"` tag, as in the code. No piece is tagged primary or wall.
- The squared size `size2` is not stored, because only the constructor reads it.
- Math.sqrt is modelled as the exact integer square root. Floating-point rounding of the square root is not modelled; for every string length a browser can hold, `Math.floor(Math.sqrt(n))` is exact.
- Labels are compared as Dafny characters. `Array.prototype.sort` compares UTF-16 code units, so characters outside the Basic Multilingual Plane (surrogate pairs) are not modelled.
- Pieces are values in a sequence that `DoMove` and `UndoMove` reassign. The source mutates the shared `Piece` objects instead; no alias of a piece escapes the board, so this is not observable.
- Boards.Board.DoMove and Boards.Board.UndoMove require a move of an existing piece. The source throws a TypeError for an out-of-range piece index; every caller in the model (MouseReleased through `Boards.LegalMovesBounded`, PopOne through the history invariant) meets the requirement, so that error path is not modelled.
- Views.View.MouseReleased: when the grabbed index is past the end of the piece list (the board was replaced between press and release), the source throws; the model makes no change.

## Findings

| source | as written | input that shows it | evidently intended | confidence | as-written member | corrected member |
|---|---|---|---|---|---|---|
| web/app.js:97-105 | the shape check allows a horizontal run whose cells are consecutive indices but cross from one row into the next | "oAAo": N = 2, piece A covers cell 1 (end of row 0) and cell 2 (start of row 1) | a stride-1 run must stay in one row, which later reasoning in `moves()` assumes | not executed | Descriptor.ParseAcceptsWrappedRun | Descriptor.ParseStrictWellFormed |

`moves()` bounds each slide by the piece's own row or column
(web/app.js:180-188), so a board whose pieces start inside their rows and
columns never gets a wrapped piece (`Boards.LegalMoveKeepsWellFormed`,
`Views.ReachableWellFormed`). The parser
as written can still create a wrapped piece. `Descriptor.ParseStrict` is the
corrected parser: it adds the row check. `Descriptor.ParseStrictWellFormed`
proves that everything it accepts is well formed, so `ReachableWellFormed`
then applies to every board it builds.
