// The board descriptor: a row-major string of length N², one character per
// cell. '.' and 'o' are empty cells, each 'x' is a one-cell wall, and every
// other character labels the cells of one movable piece.
module Descriptor {
  import opened Pieces
  import opened Boards

  datatype ParseError = Empty | NotSquare | PieceTooSmall | InvalidShape

  datatype Result<T> = Ok(value: T) | Err(error: ParseError)

  /** What parsing a descriptor yields: the board size, the pieces in order,
      and the row or column of the primary piece's exit. */
  datatype Layout = Layout(size: int, pieces: seq<Piece>, primaryPos: int)

  // ---------------------------------------------------------------------
  // Square sizes

  /** Math.floor(Math.sqrt(len)), exact on integers. */
  function ISqrt(len: nat): (r: nat)
    ensures r * r <= len < (r + 1) * (r + 1)
  {
    if len == 0 then 0
    else
      var m := ISqrt(len - 1);
      assert (m + 2) * (m + 2) == (m + 1) * (m + 1) + 2 * m + 3;
      if (m + 1) * (m + 1) <= len then m + 1 else m
  }

  function Square(k: int): int
  {
    k * k
  }

  ghost predicate IsSquare(len: nat)
  {
    exists k :: 0 <= k && Square(k) == len
  }

  /** The integer square root of a perfect square is its root. */
  lemma ISqrtOfSquare(k: nat)
    ensures ISqrt(Square(k)) == k
  {
    NoSquareBetween(ISqrt(Square(k)), k);
  }

  /** k² lies between r² and (r + 1)² only for k == r. */
  lemma NoSquareBetween(r: nat, k: nat)
    requires r * r <= k * k < (r + 1) * (r + 1)
    ensures r == k
  {
    if r < k {
      SquareMonotone(r + 1, k);
    } else if r > k {
      SquareMonotone(k + 1, r);
    }
  }

  lemma SquareMonotone(a: int, b: int)
    requires 0 <= a <= b
    ensures a * a <= b * b
  {
    MulMonotone(a, b, a);
    MulMonotone(a, b, b);
  }

  lemma ISqrtSquaredIsSquare(len: nat)
    ensures ISqrt(len) * ISqrt(len) == len <==> IsSquare(len)
  {
    if IsSquare(len) {
      var k :| 0 <= k && Square(k) == len;
      ISqrtOfSquare(k);
    }
    if ISqrt(len) * ISqrt(len) == len {
      assert Square(ISqrt(len)) == len;
    }
  }

  // ---------------------------------------------------------------------
  // Grouping cells by label

  /** The cells labelled `c`, in increasing order. */
  function Indices(d: string, c: char): seq<int>
  {
    if |d| == 0 then []
    else Indices(d[..|d| - 1], c) + (if d[|d| - 1] == c then [|d| - 1] else [])
  }

  lemma {:induction false} IndicesSpec(d: string, c: char)
    ensures forall k :: 0 <= k < |Indices(d, c)| ==>
      0 <= Indices(d, c)[k] < |d| && d[Indices(d, c)[k]] == c
    ensures forall a, b :: 0 <= a < b < |Indices(d, c)| ==> Indices(d, c)[a] < Indices(d, c)[b]
    ensures forall i :: 0 <= i < |d| && d[i] == c ==> i in Indices(d, c)
    ensures c !in d ==> Indices(d, c) == []
  {
    if |d| > 0 {
      var e := d[..|d| - 1];
      IndicesSpec(e, c);
      forall i | 0 <= i < |e| ensures d[i] == e[i] {
      }
    }
  }

  /** The distinct characters of `d` in the order of their first occurrence
      (the key order of the source's Map). */
  function FirstSeen(d: string): seq<char>
  {
    if |d| == 0 then []
    else
      var s := FirstSeen(d[..|d| - 1]);
      if d[|d| - 1] in s then s else s + [d[|d| - 1]]
  }

  predicate NoDuplicates(s: seq<char>)
  {
    forall a, b :: 0 <= a < b < |s| ==> s[a] != s[b]
  }

  lemma {:induction false} FirstSeenSpec(d: string)
    ensures forall c :: c in FirstSeen(d) <==> c in d
    ensures NoDuplicates(FirstSeen(d))
  {
    if |d| > 0 {
      var e := d[..|d| - 1];
      FirstSeenSpec(e);
      assert d == e + [d[|d| - 1]];
    }
  }

  predicate StrictlyAscending(s: seq<char>)
  {
    forall a, b :: 0 <= a < b < |s| ==> s[a] < s[b]
  }

  function Insert(c: char, s: seq<char>): (r: seq<char>)
    requires StrictlyAscending(s) && c !in s
    ensures StrictlyAscending(r)
    ensures forall x :: x in r <==> x == c || x in s
  {
    if s == [] then [c]
    else if c < s[0] then [c] + s
    else
      var rest := Insert(c, s[1..]);
      assert forall x :: x in rest ==> s[0] < x;
      assert forall a :: 0 <= a < |rest| ==> rest[a] in rest;
      [s[0]] + rest
  }

  /** Array.prototype.sort on the distinct labels: ascending character order. */
  function SortChars(s: seq<char>): (r: seq<char>)
    requires NoDuplicates(s)
    ensures StrictlyAscending(r)
    ensures forall x :: x in r <==> x in s
  {
    if s == [] then [] else Insert(s[0], SortChars(s[1..]))
  }

  /** The labels of the descriptor in sorted order. */
  function Labels(d: string): seq<char>
  {
    FirstSeenSpec(d);
    SortChars(FirstSeen(d))
  }

  lemma LabelsSpec(d: string)
    ensures StrictlyAscending(Labels(d))
    ensures forall c :: c in Labels(d) <==> c in d
  {
    FirstSeenSpec(d);
  }

  // ---------------------------------------------------------------------
  // Pieces from labels

  /** A label that names a movable piece: anything but '.', 'o' and 'x'. */
  predicate Movable(l: char)
  {
    l != '.' && l != 'o' && l != 'x'
  }

  /** The check made for one label's cells: at least two of them, a first gap
      of 1 or n, and every later gap equal to the first. */
  function LabelPiece(n: int, ps: seq<int>): Result<Piece>
  {
    if |ps| < 2 then Err(PieceTooSmall)
    else
      var stride := ps[1] - ps[0];
      if stride != 1 && stride != n then Err(InvalidShape)
      else if exists i :: 2 <= i < |ps| && ps[i] - ps[i - 1] != stride then Err(InvalidShape)
      else Ok(NewPiece(ps[0], |ps|, stride, Trigger))
  }

  /** The cells form a straight run: at least two of them, evenly spaced by 1
      or by n. */
  ghost predicate StraightRun(n: int, ps: seq<int>)
  {
    |ps| >= 2 && (ps[1] - ps[0] == 1 || ps[1] - ps[0] == n) &&
    forall k :: 0 <= k < |ps| ==> ps[k] == ps[0] + k * (ps[1] - ps[0])
  }

  lemma LabelPieceOkIff(n: int, ps: seq<int>)
    ensures LabelPiece(n, ps).Ok? <==> StraightRun(n, ps)
    ensures LabelPiece(n, ps).Ok? ==>
      LabelPiece(n, ps).value == Piece(ps[0], |ps|, ps[1] - ps[0], false, Trigger)
    ensures LabelPiece(n, ps).Err? ==>
      LabelPiece(n, ps).error == if |ps| < 2 then PieceTooSmall else InvalidShape
  {
    if |ps| >= 2 {
      var g := ps[1] - ps[0];
      if forall i :: 2 <= i < |ps| ==> ps[i] - ps[i - 1] == g {
        EvenGaps(ps, g, |ps| - 1);
      }
      if StraightRun(n, ps) {
        forall i | 2 <= i < |ps| ensures ps[i] - ps[i - 1] == g {
          assert ps[i] == ps[0] + i * g && ps[i - 1] == ps[0] + (i - 1) * g;
        }
      }
    }
  }

  lemma {:induction false} EvenGaps(ps: seq<int>, g: int, m: int)
    requires 2 <= |ps| && 0 <= m < |ps| && g == ps[1] - ps[0]
    requires forall i :: 2 <= i < |ps| ==> ps[i] - ps[i - 1] == g
    ensures forall k :: 0 <= k <= m ==> ps[k] == ps[0] + k * g
  {
    if m > 0 {
      EvenGaps(ps, g, m - 1);
      assert ps[m] == ps[m - 1] + g;
      assert (m - 1) * g + g == m * g;
    }
  }

  /** The movable pieces, one per movable label in the order of `labels`; the
      first label that fails its check decides the error. */
  function Movables(n: int, d: string, labels: seq<char>): (r: Result<seq<Piece>>)
    ensures r.Err? ==> r.error == PieceTooSmall || r.error == InvalidShape
  {
    if labels == [] then Ok([])
    else if !Movable(labels[0]) then Movables(n, d, labels[1..])
    else match LabelPiece(n, Indices(d, labels[0]))
      case Err(e) => Err(e)
      case Ok(p) => Prepend([p], Movables(n, d, labels[1..]))
  }

  function Prepend(acc: seq<Piece>, r: Result<seq<Piece>>): Result<seq<Piece>>
  {
    match r
    case Ok(s) => Ok(acc + s)
    case Err(e) => Err(e)
  }

  /** The movable labels, in order. */
  function Filter(labels: seq<char>): seq<char>
  {
    if labels == [] then []
    else if Movable(labels[0]) then [labels[0]] + Filter(labels[1..])
    else Filter(labels[1..])
  }

  /** One fixed one-cell piece per wall cell, in the order of the cells. */
  function Walls(xs: seq<int>): (ws: seq<Piece>)
    ensures |ws| == |xs|
    ensures forall j :: 0 <= j < |xs| ==> ws[j].fixed && Cells(ws[j]) == {xs[j]}
  {
    WallCells(xs);
    seq(|xs|, j requires 0 <= j < |xs| => NewPiece(xs[j], 1, 1, Trigger))
  }

  lemma WallCells(xs: seq<int>)
    ensures forall j :: 0 <= j < |xs| ==> Cells(NewPiece(xs[j], 1, 1, Trigger)) == {xs[j]}
  {
    forall j | 0 <= j < |xs|
      ensures Cells(NewPiece(xs[j], 1, 1, Trigger)) == {xs[j]}
    {
      OneCell(NewPiece(xs[j], 1, 1, Trigger));
    }
  }

  /** The row (horizontal primary piece) or column (vertical) of the exit. */
  function PrimaryPos(n: int, ps: seq<Piece>): int
    requires n > 0
  {
    if |ps| == 0 then 0
    else if ps[0].stride > 1 then Rem(ps[0].position, n)
    else ps[0].position / n
  }

  /** The Board constructor: descriptor to layout, or the first error. */
  function Parse(d: string): Result<Layout>
  {
    var n := ISqrt(|d|);
    if n == 0 then Err(Empty)
    else if n * n != |d| then Err(NotSquare)
    else match Movables(n, d, Labels(d))
      case Err(e) => Err(e)
      case Ok(movable) =>
        var ps := movable + Walls(Indices(d, 'x'));
        Ok(Layout(n, ps, PrimaryPos(n, ps)))
  }

  // ---------------------------------------------------------------------
  // What Movables computes

  lemma {:induction false} MovablesOkIff(n: int, d: string, labels: seq<char>)
    ensures Movables(n, d, labels).Ok? <==>
      forall k :: 0 <= k < |labels| && Movable(labels[k]) ==> LabelPiece(n, Indices(d, labels[k])).Ok?
  {
    if labels != [] {
      var tail := labels[1..];
      MovablesOkIff(n, d, tail);
      assert forall k :: 1 <= k < |labels| ==> labels[k] == tail[k - 1];
    }
  }

  lemma {:induction false} MovablesFirstError(n: int, d: string, labels: seq<char>, k: int)
    requires 0 <= k < |labels| && Movable(labels[k]) && LabelPiece(n, Indices(d, labels[k])).Err?
    requires forall j :: 0 <= j < k && Movable(labels[j]) ==> LabelPiece(n, Indices(d, labels[j])).Ok?
    ensures Movables(n, d, labels) == Err(LabelPiece(n, Indices(d, labels[k])).error)
  {
    if k > 0 {
      var tail := labels[1..];
      assert forall j :: 0 <= j < k - 1 ==> tail[j] == labels[j + 1];
      MovablesFirstError(n, d, tail, k - 1);
    }
  }

  lemma {:induction false} MovablesValue(n: int, d: string, labels: seq<char>, out: seq<Piece>)
    requires Movables(n, d, labels) == Ok(out)
    ensures |out| == |Filter(labels)|
    ensures forall k :: 0 <= k < |out| ==> LabelPiece(n, Indices(d, Filter(labels)[k])) == Ok(out[k])
  {
    if labels != [] {
      if !Movable(labels[0]) {
        MovablesValue(n, d, labels[1..], out);
      } else {
        var p := LabelPiece(n, Indices(d, labels[0])).value;
        var rest := Movables(n, d, labels[1..]).value;
        MovablesValue(n, d, labels[1..], rest);
        assert out == [p] + rest;
      }
    }
  }

  lemma {:induction false} FilterSpec(labels: seq<char>)
    ensures forall c :: c in Filter(labels) <==> c in labels && Movable(c)
    ensures StrictlyAscending(labels) ==> StrictlyAscending(Filter(labels))
  {
    FilterMembers(labels);
    if StrictlyAscending(labels) {
      FilterAscending(labels);
    }
  }

  lemma {:induction false} FilterMembers(labels: seq<char>)
    ensures forall c :: c in Filter(labels) <==> c in labels && Movable(c)
  {
    if labels != [] {
      FilterMembers(labels[1..]);
      assert labels == [labels[0]] + labels[1..];
    }
  }

  lemma {:induction false} FilterAscending(labels: seq<char>)
    requires StrictlyAscending(labels)
    ensures StrictlyAscending(Filter(labels))
  {
    if labels != [] {
      var tail := labels[1..];
      FilterMembers(tail);
      FilterAscending(tail);
      assert forall x :: x in Filter(tail) ==> labels[0] < x;
      assert forall a :: 0 <= a < |Filter(tail)| ==> Filter(tail)[a] in Filter(tail);
    }
  }

  /** The movable labels of a descriptor, in ascending order: the order in
      which the parser creates their pieces. */
  function MovableLabels(d: string): seq<char>
  {
    Filter(Labels(d))
  }

  lemma MovableLabelsSpec(d: string)
    ensures StrictlyAscending(MovableLabels(d))
    ensures forall c :: c in MovableLabels(d) <==> c in d && Movable(c)
  {
    LabelsSpec(d);
    FilterSpec(Labels(d));
  }

  // ---------------------------------------------------------------------
  // What Parse accepts

  /** Only the empty descriptor is rejected as empty. */
  lemma ParseEmptyIff(d: string)
    ensures Parse(d) == Err(Empty) <==> |d| == 0
  {
  }

  /** A non-empty descriptor whose length is not a perfect square is rejected
      as not square, and no other is. */
  lemma ParseNotSquareIff(d: string)
    ensures Parse(d) == Err(NotSquare) <==> |d| > 0 && !IsSquare(|d|)
  {
    ISqrtSquaredIsSquare(|d|);
  }

  /** A descriptor is accepted exactly when it is non-empty, of square length
      N², and the cells of every movable label form a straight run of at
      least two cells spaced 1 or N apart. */
  lemma ParseOkIff(d: string)
    ensures Parse(d).Ok? <==>
      |d| > 0 && IsSquare(|d|) &&
      forall l :: l in d && Movable(l) ==> StraightRun(ISqrt(|d|), Indices(d, l))
  {
    var n := ISqrt(|d|);
    ISqrtSquaredIsSquare(|d|);
    MovablesOkIff(n, d, Labels(d));
    LabelsAllStraight(n, d);
  }

  /** Every movable label in the label list passes its check exactly when
      the cells of every movable character of the descriptor form a run. */
  lemma LabelsAllStraight(n: int, d: string)
    ensures (forall k :: 0 <= k < |Labels(d)| && Movable(Labels(d)[k]) ==>
        LabelPiece(n, Indices(d, Labels(d)[k])).Ok?) <==>
      (forall l :: l in d && Movable(l) ==> StraightRun(n, Indices(d, l)))
  {
    LabelsSpec(d);
    var labels := Labels(d);
    forall l | l in d
      ensures LabelPiece(n, Indices(d, l)).Ok? <==> StraightRun(n, Indices(d, l))
    {
      LabelPieceOkIff(n, Indices(d, l));
    }
    assert forall k :: 0 <= k < |labels| ==> labels[k] in labels;
  }

  /** Labels are checked in ascending order, so the smallest bad movable
      label decides the error: too few cells, or a bad shape. */
  lemma ParseFirstBadLabel(d: string, l: char)
    requires |d| > 0 && IsSquare(|d|)
    requires l in d && Movable(l) && !StraightRun(ISqrt(|d|), Indices(d, l))
    requires forall l' :: l' in d && Movable(l') && l' < l ==> StraightRun(ISqrt(|d|), Indices(d, l'))
    ensures Parse(d) == Err(if |Indices(d, l)| < 2 then PieceTooSmall else InvalidShape)
  {
    var n := ISqrt(|d|);
    ISqrtSquaredIsSquare(|d|);
    LabelsSpec(d);
    var labels := Labels(d);
    var k :| 0 <= k < |labels| && labels[k] == l;
    LabelPieceOkIff(n, Indices(d, l));
    forall j | 0 <= j < k && Movable(labels[j])
      ensures LabelPiece(n, Indices(d, labels[j])).Ok?
    {
      LabelPieceOkIff(n, Indices(d, labels[j]));
    }
    MovablesFirstError(n, d, labels, k);
  }

  /** Piece `p` spans the cells labelled `c`, which form a straight run. */
  ghost predicate RunPiece(n: int, d: string, c: char, p: Piece)
  {
    var ps := Indices(d, c);
    StraightRun(n, ps) && p == Piece(ps[0], |ps|, ps[1] - ps[0], false, Trigger)
  }

  /** The pieces of an accepted layout: size N with N² == |d|, one piece per
      movable label in ascending label order spanning that label's cells,
      then one fixed wall per 'x' cell in cell order. */
  ghost predicate PiecesOf(d: string, L: Layout)
  {
    var M, X := MovableLabels(d), Indices(d, 'x');
    L.size > 0 && L.size * L.size == |d| && |L.pieces| == |M| + |X| &&
    (forall k :: 0 <= k < |M| ==> RunPiece(L.size, d, M[k], L.pieces[k])) &&
    (forall j :: 0 <= j < |X| ==> L.pieces[|M| + j] == Piece(X[j], 1, 1, true, Trigger))
  }

  /** The accepted layout: its pieces are those of PiecesOf, and the exit
      line is the row (horizontal) or column (vertical) of the first piece. */
  lemma ParsePieces(d: string, L: Layout)
    requires Parse(d) == Ok(L)
    ensures PiecesOf(d, L)
    ensures |L.pieces| == 0 ==> L.primaryPos == 0
    ensures |L.pieces| > 0 && L.pieces[0].stride > 1 ==> L.primaryPos == L.pieces[0].position % L.size
    ensures |L.pieces| > 0 && L.pieces[0].stride <= 1 ==> L.primaryPos == L.pieces[0].position / L.size
  {
    ParseOkParts(d, L);
    var n := L.size;
    var movable := Movables(n, d, Labels(d)).value;
    MovablePieces(n, d, movable);
    var M := MovableLabels(d);
    if |L.pieces| > 0 {
      if |M| > 0 {
        IndicesSpec(d, M[0]);
      } else {
        IndicesSpec(d, 'x');
      }
    }
  }

  /** Parse's result on an accepted descriptor, in terms of its parts. */
  lemma ParseOkParts(d: string, L: Layout)
    requires Parse(d) == Ok(L)
    ensures L.size == ISqrt(|d|) > 0 && L.size * L.size == |d|
    ensures Movables(L.size, d, Labels(d)).Ok?
    ensures L.pieces == Movables(L.size, d, Labels(d)).value + Walls(Indices(d, 'x'))
    ensures L.primaryPos == PrimaryPos(L.size, L.pieces)
  {
  }

  /** The movable pieces are the runs of the movable labels, in order. */
  lemma MovablePieces(n: int, d: string, movable: seq<Piece>)
    requires Movables(n, d, Labels(d)) == Ok(movable)
    ensures |movable| == |MovableLabels(d)|
    ensures forall k :: 0 <= k < |movable| ==> RunPiece(n, d, MovableLabels(d)[k], movable[k])
  {
    MovablesValue(n, d, Labels(d), movable);
    var M := MovableLabels(d);
    forall k | 0 <= k < |M|
      ensures RunPiece(n, d, M[k], movable[k])
    {
      LabelPieceOkIff(n, Indices(d, M[k]));
    }
  }

  // ---------------------------------------------------------------------
  // The shapes Parse produces

  /** A horizontal piece that runs past the end of its row. */
  predicate Wraps(n: int, p: Piece)
  {
    p.stride == 1 && n > 0 && p.position % n + p.size > n
  }

  /** The character every cell of parsed piece `i` carries. */
  function PieceLabel(d: string, i: int): char
  {
    var M := MovableLabels(d);
    if 0 <= i < |M| then M[i] else 'x'
  }

  /** The cells of a piece built from a straight run are that run's cells. */
  lemma RunPieceCells(d: string, c: char, n: int, p: Piece)
    requires StraightRun(n, Indices(d, c))
    requires var ps := Indices(d, c); p == Piece(ps[0], |ps|, ps[1] - ps[0], false, Trigger)
    ensures p.size >= 2 && p.position >= 0
    ensures forall k :: 0 <= k < p.size ==> 0 <= CellAt(p, k) < |d| && d[CellAt(p, k)] == c
  {
    var ps := Indices(d, c);
    IndicesSpec(d, c);
    forall k | 0 <= k < p.size
      ensures CellAt(p, k) == ps[k]
    {
    }
  }

  /** Every cell of a parsed piece lies in the descriptor and carries the
      piece's label, or 'x' for a wall. */
  lemma ParsedPieceCells(d: string, L: Layout, i: int)
    requires PiecesOf(d, L) && 0 <= i < |L.pieces|
    ensures L.size > 0 && L.size * L.size == |d|
    ensures L.pieces[i].size >= 1 && L.pieces[i].position >= 0
    ensures L.pieces[i].stride == 1 || L.pieces[i].stride == L.size
    ensures forall k :: 0 <= k < L.pieces[i].size ==>
      0 <= CellAt(L.pieces[i], k) < |d| && d[CellAt(L.pieces[i], k)] == PieceLabel(d, i)
    ensures Movable(PieceLabel(d, i)) <==> i < |MovableLabels(d)|
    ensures i >= |MovableLabels(d)| ==>
      L.pieces[i].size == 1 && i - |MovableLabels(d)| < |Indices(d, 'x')| &&
      L.pieces[i].position == Indices(d, 'x')[i - |MovableLabels(d)|]
  {
    var M := MovableLabels(d);
    if i < |M| {
      MovableLabelsSpec(d);
      assert M[i] in M;
      RunPieceCells(d, M[i], L.size, L.pieces[i]);
    } else {
      var X := Indices(d, 'x');
      var j := i - |M|;
      assert L.pieces[|M| + j] == Piece(X[j], 1, 1, true, Trigger);
      IndicesSpec(d, 'x');
    }
  }

  /** A run that starts inside the grid and whose last cell is inside the
      grid lies in one row or column, unless it is horizontal and wraps. */
  lemma RunInGrid(n: int, p: Piece)
    requires n > 0 && p.size >= 1 && p.position >= 0 && (p.stride == 1 || p.stride == n)
    requires CellAt(p, p.size - 1) < n * n
    ensures InGrid(n, p) <==> !Wraps(n, p)
  {
    var q, r := p.position / n, p.position % n;
    assert p.position == q * n + r;
    MulMonotone(0, p.size - 1, p.stride);
    if q >= n {
      MulMonotone(n, q, n);
      assert false;
    }
    if p.stride != 1 {
      assert CellAt(p, p.size - 1) == (q + p.size - 1) * n + r;
      if q + p.size - 1 >= n {
        MulMonotone(n, q + p.size - 1, n);
        assert false;
      }
    }
  }

  /** A parsed piece lies inside the grid exactly when it does not wrap. */
  lemma ParsedPieceInGrid(d: string, L: Layout, i: int)
    requires PiecesOf(d, L) && 0 <= i < |L.pieces|
    ensures InGrid(L.size, L.pieces[i]) <==> !Wraps(L.size, L.pieces[i])
  {
    ParsedPieceCells(d, L, i);
    RunInGrid(L.size, L.pieces[i]);
  }

  /** Two different parsed pieces share no cell: their cells carry different
      labels, and two walls sit on different 'x' cells. */
  lemma ParsedPiecesApart(d: string, L: Layout, i: int, j: int)
    requires PiecesOf(d, L) && 0 <= i < j < |L.pieces|
    ensures Cells(L.pieces[i]) !! Cells(L.pieces[j])
  {
    ParsedPieceCells(d, L, i);
    ParsedPieceCells(d, L, j);
    MovableLabelsSpec(d);
    var M := MovableLabels(d);
    forall c | c in Cells(L.pieces[i])
      ensures c !in Cells(L.pieces[j])
    {
      var a :| 0 <= a < L.pieces[i].size && CellAt(L.pieces[i], a) == c;
      if c in Cells(L.pieces[j]) {
        var b :| 0 <= b < L.pieces[j].size && CellAt(L.pieces[j], b) == c;
        assert PieceLabel(d, i) == d[c] == PieceLabel(d, j);
        if j < |M| {
          assert false;
        } else if i < |M| {
          assert false;
        } else {
          IndicesSpec(d, 'x');
          assert false;
        }
      }
    }
  }

  /** Parsed pieces never overlap, and they are well formed exactly when no
      horizontal piece wraps past the end of its row. */
  lemma ParseWellFormedUnlessWrapped(d: string, L: Layout)
    requires Parse(d) == Ok(L)
    ensures Disjoint(L.pieces)
    ensures WellFormed(L.size, L.pieces) <==>
      forall i :: 0 <= i < |L.pieces| ==> !Wraps(L.size, L.pieces[i])
  {
    ParsePieces(d, L);
    forall i | 0 <= i < |L.pieces|
      ensures InGrid(L.size, L.pieces[i]) <==> !Wraps(L.size, L.pieces[i])
    {
      ParsedPieceInGrid(d, L, i);
    }
    forall i, j | 0 <= i < j < |L.pieces|
      ensures Cells(L.pieces[i]) !! Cells(L.pieces[j])
    {
      ParsedPiecesApart(d, L, i, j);
    }
  }

  // ---------------------------------------------------------------------
  // The row-wrap check the parser misses

  /** The parser with the check its shape test evidently intends: a
      horizontal run that leaves its row is an invalid shape. */
  function ParseStrict(d: string): Result<Layout>
  {
    match Parse(d)
    case Err(e) => Err(e)
    case Ok(L) =>
      if exists i :: 0 <= i < |L.pieces| && Wraps(L.size, L.pieces[i]) then Err(InvalidShape)
      else Ok(L)
  }

  /** The strict parser accepts exactly the descriptors whose parsed layout
      is well formed, with the same layout; everything it accepts is a legal
      board of non-overlapping pieces inside the grid. */
  lemma ParseStrictWellFormed(d: string)
    ensures ParseStrict(d).Ok? <==>
      Parse(d).Ok? && WellFormed(Parse(d).value.size, Parse(d).value.pieces)
    ensures ParseStrict(d).Ok? ==> ParseStrict(d) == Parse(d)
    ensures ParseStrict(d).Err? && Parse(d).Ok? ==> ParseStrict(d).error == InvalidShape
  {
    if Parse(d).Ok? {
      ParseWellFormedUnlessWrapped(d, Parse(d).value);
    }
  }

  /** "oAAo" is accepted although its piece A covers the last cell of row 0
      and the first cell of row 1. */
  lemma ParseAcceptsWrappedRun()
    ensures Parse("oAAo") == Ok(Layout(2, [Piece(1, 2, 1, false, Trigger)], 0))
    ensures !WellFormed(2, [Piece(1, 2, 1, false, Trigger)])
    ensures ParseStrict("oAAo") == Err(InvalidShape)
  {
    var d := "oAAo";
    WrappedRunLabels();
    WrappedRunIndices();
    WrappedRunMovables();
    ISqrtOfSquare(2);
    assert ISqrt(|d|) == 2;
    assert !InGrid(2, Piece(1, 2, 1, false, Trigger));
    assert Wraps(2, Piece(1, 2, 1, false, Trigger));
  }

  lemma WrappedRunMovables()
    ensures Movables(2, "oAAo", ['A', 'o']) == Ok([Piece(1, 2, 1, false, Trigger)])
  {
    WrappedRunIndices();
    assert ['A', 'o'][0] == 'A' && ['A', 'o'][1..] == ['o'] && ['o'][1..] == [];
    assert LabelPiece(2, [1, 2]) == Ok(Piece(1, 2, 1, false, Trigger));
    assert Movables(2, "oAAo", ['o']) == Ok([]);
    assert [Piece(1, 2, 1, false, Trigger)] + [] == [Piece(1, 2, 1, false, Trigger)];
  }

  lemma WrappedRunLabels()
    ensures Labels("oAAo") == ['A', 'o']
  {
    WrappedRunFirstSeen();
    WrappedRunSorted();
  }

  lemma WrappedRunFirstSeen()
    ensures FirstSeen("oAAo") == ['o', 'A']
  {
    var d := "oAAo";
    assert d[..3] == "oAA" && d[..3][..2] == "oA" && d[..3][..2][..1] == "o";
    assert FirstSeen("o") == ['o'];
    assert FirstSeen("oA") == ['o', 'A'];
    assert FirstSeen("oAA") == ['o', 'A'];
  }

  lemma WrappedRunSorted()
    ensures NoDuplicates(['o', 'A']) && SortChars(['o', 'A']) == ['A', 'o']
  {
    assert ['o', 'A'][1..] == ['A'] && ['A'][1..] == [];
    assert SortChars(['A']) == ['A'];
    assert Insert('o', ['A']) == ['A', 'o'];
  }

  lemma WrappedRunIndices()
    ensures Indices("oAAo", 'A') == [1, 2]
    ensures Indices("oAAo", 'x') == []
  {
    var d := "oAAo";
    assert d[..3] == "oAA" && d[..3][..2] == "oA" && d[..3][..2][..1] == "o";
    assert Indices("o", 'A') == [];
    assert Indices("oA", 'A') == [1];
    assert Indices("oAA", 'A') == [1, 2];
    IndicesSpec(d, 'x');
  }

  // ---------------------------------------------------------------------
  // The constructor, step by step

  /** Groups the cell indices by label, keeping the labels in order of first
      occurrence (a Map and its key order). */
  method GroupCells(desc: string) returns (positions: map<char, seq<int>>, keys: seq<char>)
    ensures keys == FirstSeen(desc)
    ensures forall c :: c in positions <==> c in desc
    ensures forall c :: c in positions ==> positions[c] == Indices(desc, c)
  {
    positions := map[];
    keys := [];
    for i := 0 to |desc|
      invariant keys == FirstSeen(desc[..i])
      invariant forall c :: c in positions <==> c in desc[..i]
      invariant forall c :: c in positions ==> positions[c] == Indices(desc[..i], c)
    {
      var ch := desc[i];
      assert desc[..i + 1][..i] == desc[..i];
      assert desc[..i + 1] == desc[..i] + [ch];
      FirstSeenSpec(desc[..i]);
      IndicesSpec(desc[..i], ch);
      if ch !in positions {
        positions := positions[ch := []];
        keys := keys + [ch];
      }
      positions := positions[ch := positions[ch] + [i]];
    }
    assert desc[..|desc|] == desc;
  }

  /** The Board constructor: size from the square root of the length, pieces
      for the sorted movable labels with their checks, walls, and the exit
      line. It fails exactly as Parse does and otherwise builds its layout. */
  method NewBoard(desc: string) returns (r: Result<Board>)
    ensures Parse(desc).Err? ==> r == Err(Parse(desc).error)
    ensures Parse(desc).Ok? ==>
      r.Ok? && fresh(r.value) && r.value.Valid() &&
      r.value.size == Parse(desc).value.size &&
      r.value.pieces == Parse(desc).value.pieces &&
      r.value.primaryPos == Parse(desc).value.primaryPos
  {
    var n := ISqrt(|desc|);
    if n == 0 {
      return Err(Empty);
    }
    if n * n != |desc| {
      return Err(NotSquare);
    }
    var positions, keys := GroupCells(desc);
    FirstSeenSpec(desc);
    var labels := SortChars(keys);
    assert labels == Labels(desc);
    var b := new Board(n);
    var movable := AddMovables(b, desc, positions, labels);
    if movable.Err? {
      assert Parse(desc) == Err(movable.error);
      return Err(movable.error);
    }
    assert b.pieces == movable.value;
    if 'x' in positions {
      AddWalls(b, positions['x']);
      assert b.pieces == movable.value + Walls(Indices(desc, 'x'));
    } else {
      IndicesSpec(desc, 'x');
      assert b.pieces == movable.value + Walls(Indices(desc, 'x'));
    }
    b.primaryPos := 0;
    if |b.pieces| != 0 {
      var piece := b.pieces[0];
      b.primaryPos := if piece.stride > 1 then Rem(piece.position, n) else piece.position / n;
    }
    assert b.primaryPos == PrimaryPos(n, b.pieces);
    assert Parse(desc) == Ok(Layout(n, b.pieces, b.primaryPos));
    return Ok(b);
  }

  /** The label loop of the constructor: appends one piece per movable label
      of `labels`, in order, and stops at the first label whose cells fail
      the check, with the error that check raises. */
  method AddMovables(b: Board, desc: string, positions: map<char, seq<int>>, labels: seq<char>)
    returns (r: Result<seq<Piece>>)
    requires b.Valid()
    requires forall c :: c in labels ==> c in positions
    requires forall c :: c in positions ==> positions[c] == Indices(desc, c)
    modifies b`pieces
    ensures r == Movables(b.size, desc, labels)
    ensures r.Ok? ==> b.pieces == old(b.pieces) + r.value
  {
    var n := b.size;
    ghost var start := b.pieces;
    var first := |b.pieces|;
    assert labels[0..] == labels && b.pieces[first..] == [];
    PrependNil(Movables(n, desc, labels));
    for k := 0 to |labels|
      invariant first == |start| <= |b.pieces| && b.pieces[..first] == start
      invariant Movables(n, desc, labels) == Prepend(b.pieces[first..], Movables(n, desc, labels[k..]))
    {
      var ch := labels[k];
      assert labels[k..][1..] == labels[k + 1..];
      if ch == '.' || ch == 'o' {
        continue;
      }
      if ch == 'x' {
        continue;
      }
      assert ch in labels;
      var ps := positions[ch];
      if |ps| < 2 {
        return Err(PieceTooSmall);
      }
      var stride := ps[1] - ps[0];
      if stride != 1 && stride != n {
        return Err(InvalidShape);
      }
      for j := 2 to |ps|
        invariant forall i :: 2 <= i < j ==> ps[i] - ps[i - 1] == stride
      {
        if ps[j] - ps[j - 1] != stride {
          return Err(InvalidShape);
        }
      }
      var piece := NewPiece(ps[0], |ps|, stride, Trigger);
      assert LabelPiece(n, ps) == Ok(piece);
      PrependAppend(b.pieces[first..], piece, Movables(n, desc, labels[k + 1..]));
      ghost var before := b.pieces;
      b.AddPiece(piece);
      assert b.pieces[first..] == before[first..] + [piece];
    }
    assert labels[|labels|..] == [];
    assert b.pieces[first..] + [] == b.pieces[first..];
    r := Ok(b.pieces[first..]);
    assert b.pieces == start + b.pieces[first..];
  }

  /** The wall loop of the constructor: one fixed one-cell piece per cell. */
  method AddWalls(b: Board, xs: seq<int>)
    modifies b`pieces
    ensures b.pieces == old(b.pieces) + Walls(xs)
  {
    for j := 0 to |xs|
      invariant b.pieces == old(b.pieces) + Walls(xs[..j])
    {
      assert Walls(xs[..j + 1]) == Walls(xs[..j]) + [NewPiece(xs[j], 1, 1, Trigger)];
      b.AddPiece(NewPiece(xs[j], 1, 1, Trigger));
    }
    assert xs[..|xs|] == xs;
  }

  lemma PrependNil(rest: Result<seq<Piece>>)
    ensures Prepend([], rest) == rest
  {
    if rest.Ok? {
      assert [] + rest.value == rest.value;
    }
  }

  lemma PrependAppend(acc: seq<Piece>, p: Piece, rest: Result<seq<Piece>>)
    ensures Prepend(acc, Prepend([p], rest)) == Prepend(acc + [p], rest)
  {
    if rest.Ok? {
      assert acc + ([p] + rest.value) == (acc + [p]) + rest.value;
    }
  }
}
