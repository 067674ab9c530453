/** The rules of the block-stack engine as pure definitions over values: the
    board, the seven templates, placement validity, clockwise rotation with
    wall kicks, locking, line clearing, scoring and the landing sequence. The
    class `Tetris.TetrisGame` performs these step by step and is proved to
    agree with them. */
module TetrisRules {
  import opened Shared

  const Width: nat := 10
  const Height: nat := 20

  /** The seven piece kinds. A piece's colour tag ("piece-I", ...) is
      determined by its kind, so the kind stands for the colour. */
  datatype Kind = I | O | T | S | Z | J | L

  /** A board cell: empty (`0` in the engine) or holding a colour tag. */
  datatype Cell = Empty | Block(color: Kind)

  type Row = seq<Cell>
  type Board = seq<Row>

  /** A 4x4 occupancy matrix; a non-zero entry is an occupied cell. */
  type Shape = seq<seq<int>>

  /** The falling piece: kind (and so colour), shape, and the board
      coordinate of the shape's top-left corner. */
  datatype Piece = Piece(kind: Kind, shape: Shape, x: int, y: int)

  predicate IsBoard(b: Board)
  {
    |b| == Height && forall r :: 0 <= r < |b| ==> |b[r]| == Width
  }

  predicate IsShape(s: Shape)
  {
    |s| == 4 && forall r :: 0 <= r < 4 ==> |s[r]| == 4
  }

  ghost predicate HasCell(s: Shape)
    requires IsShape(s)
  {
    exists r, c :: 0 <= r < 4 && 0 <= c < 4 && s[r][c] != 0
  }

  // ---------------------------------------------------------------------
  // Templates and spawning

  /** The order of `TETROMINO_NAMES`: a roll of the random index picks the
      kind at that position. */
  function KindAt(roll: nat): Kind
    requires roll < 7
  {
    [I, O, T, S, Z, J, L][roll]
  }

  function Template(k: Kind): Shape
  {
    match k
    case I => [[0,0,0,0], [1,1,1,1], [0,0,0,0], [0,0,0,0]]
    case O => [[0,0,0,0], [0,1,1,0], [0,1,1,0], [0,0,0,0]]
    case T => [[0,0,0,0], [0,1,0,0], [1,1,1,0], [0,0,0,0]]
    case S => [[0,0,0,0], [0,1,1,0], [1,1,0,0], [0,0,0,0]]
    case Z => [[0,0,0,0], [1,1,0,0], [0,1,1,0], [0,0,0,0]]
    case J => [[0,0,0,0], [1,0,0,0], [1,1,1,0], [0,0,0,0]]
    case L => [[0,0,0,0], [0,0,1,0], [1,1,1,0], [0,0,0,0]]
  }

  /** A fresh copy of the template picked by `roll`, anchored at (3, 0). */
  function Spawn(roll: nat): (p: Piece)
    requires roll < 7
    ensures p.kind == KindAt(roll) && p.shape == Template(p.kind)
    ensures p.x == 3 && p.y == 0
    ensures IsShape(p.shape) && HasCell(p.shape)
  {
    var k := KindAt(roll);
    TemplateIsShape(k);
    Piece(k, Template(k), 3, 0)
  }

  lemma TemplateIsShape(k: Kind)
    ensures IsShape(Template(k)) && HasCell(Template(k))
  {
    if k == I { assert Template(k)[1][0] != 0; } else { assert Template(k)[2][1] != 0; }
  }

  function EmptyRow(): (row: Row)
    ensures |row| == Width && forall c :: 0 <= c < Width ==> row[c] == Empty
  {
    seq(Width, c => Empty)
  }

  function EmptyRows(n: nat): (b: Board)
    ensures |b| == n && forall r :: 0 <= r < n ==> b[r] == EmptyRow()
  {
    seq(n, r => EmptyRow())
  }

  function EmptyBoard(): Board
  {
    EmptyRows(Height)
  }

  // ---------------------------------------------------------------------
  // Placement validity

  /** Whether one occupied shape cell may sit at board column x, row y:
      inside the side walls, above the floor, and on an empty cell when the
      row is on the board. Rows above the board (y < 0) are always free. */
  predicate CellFree(b: Board, x: int, y: int)
    requires IsBoard(b)
  {
    0 <= x < Width && y < Height && (y >= 0 ==> b[y][x] == Empty)
  }

  /** The piece, translated by (dx, dy), is in a valid position. */
  predicate Fits(b: Board, p: Piece, dx: int, dy: int)
    requires IsBoard(b) && IsShape(p.shape)
  {
    forall r, c :: 0 <= r < 4 && 0 <= c < 4 && p.shape[r][c] != 0 ==>
      CellFree(b, p.x + c + dx, p.y + r + dy)
  }

  function Shifted(p: Piece, dx: int, dy: int): Piece
  {
    p.(x := p.x + dx, y := p.y + dy)
  }

  /** Validity at an offset is validity of the translated piece. */
  lemma FitsShifted(b: Board, p: Piece, dx: int, dy: int)
    requires IsBoard(b) && IsShape(p.shape)
    ensures Fits(b, p, dx, dy) == Fits(b, Shifted(p, dx, dy), 0, 0)
  {
  }

  /** A piece with an occupied cell that fits at (0, dy) has its anchor
      above the floor. */
  lemma FitsAboveFloor(b: Board, p: Piece, dy: int)
    requires IsBoard(b) && IsShape(p.shape) && HasCell(p.shape)
    requires Fits(b, p, 0, dy)
    ensures p.y + dy < Height
  {
    var r, c :| 0 <= r < 4 && 0 <= c < 4 && p.shape[r][c] != 0;
    assert CellFree(b, p.x + c + 0, p.y + r + dy);
  }

  /** A freshly spawned piece fits an empty board. */
  lemma SpawnFitsEmptyBoard(roll: nat)
    requires roll < 7
    ensures Fits(EmptyBoard(), Spawn(roll), 0, 0)
  {
  }

  // ---------------------------------------------------------------------
  // Rotation and wall kicks

  /** A sequence read back to front. */
  function Reversed<T>(xs: seq<T>): (ys: seq<T>)
    ensures |ys| == |xs|
    ensures forall k :: 0 <= k < |xs| ==> ys[k] == xs[|xs| - 1 - k]
  {
    if xs == [] then [] else Reversed(xs[1..]) + [xs[0]]
  }

  /** Column c of a shape, read top to bottom: one entry per row. */
  function Column(s: Shape, c: nat): seq<int>
    requires IsShape(s) && c < 4
  {
    seq(|s|, r requires 0 <= r < |s| => s[r][c])
  }

  /** The rotation as the engine computes it: for each column index of the
      first row, that column gathered across the rows and then reversed.
      Transposing then reversing is the clockwise quarter turn: cell (i, j)
      of the result is cell (3 - j, i) of the original. */
  function Rotated(s: Shape): (q: Shape)
    requires IsShape(s)
    ensures IsShape(q)
    ensures forall i, j :: 0 <= i < 4 && 0 <= j < 4 ==> q[i][j] == s[3 - j][i]
  {
    seq(|s[0]|, i requires 0 <= i < |s[0]| => Reversed(Column(s, i)))
  }

  lemma ShapeExt(a: Shape, b: Shape)
    requires IsShape(a) && IsShape(b)
    requires forall i, j :: 0 <= i < 4 && 0 <= j < 4 ==> a[i][j] == b[i][j]
    ensures a == b
  {
    forall i | 0 <= i < 4 ensures a[i] == b[i] {
    }
  }

  /** Rotation moves the cell in row r, column c to row c, column 3 - r
      (a quarter turn clockwise), so four rotations give the shape back. */
  lemma RotateFourTimes(s: Shape)
    requires IsShape(s)
    ensures Rotated(Rotated(Rotated(Rotated(s)))) == s
  {
    var r1 := Rotated(s);
    var r2 := Rotated(r1);
    var r3 := Rotated(r2);
    var r4 := Rotated(r3);
    forall i, j | 0 <= i < 4 && 0 <= j < 4 ensures r4[i][j] == s[i][j] {
      calc {
        r4[i][j];
        r3[3 - j][i];
        r2[3 - i][3 - j];
        r1[j][3 - i];
        s[i][j];
      }
    }
    ShapeExt(r4, s);
  }

  /** Rotation keeps a shape with an occupied cell occupied. */
  lemma RotatedHasCell(s: Shape)
    requires IsShape(s) && HasCell(s)
    ensures HasCell(Rotated(s))
  {
    var r, c :| 0 <= r < 4 && 0 <= c < 4 && s[r][c] != 0;
    assert Rotated(s)[c][3 - r] == s[r][c];
  }

  /** The O template is a 2x2 square in the middle of the matrix, so
      rotating it changes nothing. */
  lemma RotateO()
    ensures Rotated(Template(O)) == Template(O)
  {
    ShapeExt(Rotated(Template(O)), Template(O));
  }

  /** The wall kicks tried, in this order, when a rotation is invalid. */
  const Kicks: seq<(int, int)> := [(1, 0), (-1, 0), (0, -1), (1, -1), (-1, -1), (2, 0), (-2, 0)]

  /** Index of the first kick at or after `from` at which the piece fits,
      or |Kicks| when none does. */
  function FirstFit(b: Board, p: Piece, from: nat): (k: nat)
    requires IsBoard(b) && IsShape(p.shape) && from <= |Kicks|
    ensures from <= k <= |Kicks|
    ensures forall j :: from <= j < k ==> !Fits(b, p, Kicks[j].0, Kicks[j].1)
    ensures k < |Kicks| ==> Fits(b, p, Kicks[k].0, Kicks[k].1)
    decreases |Kicks| - from
  {
    if from == |Kicks| then from
    else if Fits(b, p, Kicks[from].0, Kicks[from].1) then from
    else FirstFit(b, p, from + 1)
  }

  /** The piece a rotation request produces: the rotated shape in place when
      that is valid, else translated by the first kick that makes it valid;
      None when every kick fails and the rotation is discarded. */
  function RotateAttempt(b: Board, p: Piece): (r: Option<Piece>)
    requires IsBoard(b) && IsShape(p.shape)
    ensures r.Some? ==> r.value.kind == p.kind && r.value.shape == Rotated(p.shape) && Fits(b, r.value, 0, 0)
  {
    var rp := p.(shape := Rotated(p.shape));
    if Fits(b, rp, 0, 0) then Some(rp)
    else
      var k := FirstFit(b, rp, 0);
      if k < |Kicks| then
        FitsShifted(b, rp, Kicks[k].0, Kicks[k].1);
        Some(Shifted(rp, Kicks[k].0, Kicks[k].1))
      else None
  }

  /** A rotation either commits the clockwise rotation at a valid position,
      unmoved or moved by the first valid kick, or is discarded exactly when
      neither the unmoved position nor any kick is valid. */
  lemma RotateAttemptSpec(b: Board, p: Piece)
    requires IsBoard(b) && IsShape(p.shape)
    ensures var rp := p.(shape := Rotated(p.shape));
      match RotateAttempt(b, p)
      case Some(q) =>
        && q.kind == p.kind && q.shape == Rotated(p.shape) && Fits(b, q, 0, 0)
        && (if Fits(b, rp, 0, 0) then q.x == p.x && q.y == p.y
            else exists k :: 0 <= k < |Kicks| && q == Shifted(rp, Kicks[k].0, Kicks[k].1)
                   && forall j :: 0 <= j < k ==> !Fits(b, rp, Kicks[j].0, Kicks[j].1))
      case None =>
        !Fits(b, rp, 0, 0) && forall k :: 0 <= k < |Kicks| ==> !Fits(b, rp, Kicks[k].0, Kicks[k].1)
  {
    var rp := p.(shape := Rotated(p.shape));
    if !Fits(b, rp, 0, 0) {
      var k := FirstFit(b, rp, 0);
      if k < |Kicks| {
        FitsShifted(b, rp, Kicks[k].0, Kicks[k].1);
      }
    }
  }

  // ---------------------------------------------------------------------
  // Locking

  /** Board cell (r, c) lies under an occupied cell of the piece's shape. */
  predicate Covers(p: Piece, r: int, c: int)
    requires IsShape(p.shape)
  {
    0 <= r - p.y < 4 && 0 <= c - p.x < 4 && p.shape[r - p.y][c - p.x] != 0
  }

  /** The board after writing the piece's colour into every on-board cell
      its shape occupies. */
  function Locked(b: Board, p: Piece): (b': Board)
    requires IsBoard(b) && IsShape(p.shape)
    ensures IsBoard(b')
  {
    seq(Height, r requires 0 <= r < Height =>
      seq(Width, c requires 0 <= c < Width =>
        if Covers(p, r, c) then Block(p.kind) else b[r][c]))
  }

  /** Locking writes the piece's colour at exactly the on-board images of
      its occupied cells; every other cell keeps its content. */
  lemma LockedCells(b: Board, p: Piece, r: int, c: int)
    requires IsBoard(b) && IsShape(p.shape)
    requires 0 <= r < Height && 0 <= c < Width
    ensures (exists sr, sc :: 0 <= sr < 4 && 0 <= sc < 4 && p.shape[sr][sc] != 0 && r == p.y + sr && c == p.x + sc)
            ==> Locked(b, p)[r][c] == Block(p.kind)
    ensures !(exists sr, sc :: 0 <= sr < 4 && 0 <= sc < 4 && p.shape[sr][sc] != 0 && r == p.y + sr && c == p.x + sc)
            ==> Locked(b, p)[r][c] == b[r][c]
  {
    if Covers(p, r, c) {
      assert 0 <= r - p.y < 4 && 0 <= c - p.x < 4 && p.shape[r - p.y][c - p.x] != 0 && r == p.y + (r - p.y) && c == p.x + (c - p.x);
    }
  }

  lemma BoardExt(a: Board, b: Board)
    requires IsBoard(a) && IsBoard(b)
    requires forall r, c :: 0 <= r < Height && 0 <= c < Width ==> a[r][c] == b[r][c]
    ensures a == b
  {
    forall r | 0 <= r < Height ensures a[r] == b[r] {
    }
  }

  // ---------------------------------------------------------------------
  // Line clearing

  /** A complete line: no empty cell. */
  predicate Full(row: Row)
  {
    forall c :: 0 <= c < |row| ==> row[c] != Empty
  }

  predicate NoFullRow(b: Board)
  {
    forall r :: 0 <= r < |b| ==> !Full(b[r])
  }

  /** The rows that are not complete, in their original order. */
  function Kept(b: Board): Board
  {
    if b == [] then []
    else (if Full(b[0]) then [] else [b[0]]) + Kept(b[1..])
  }

  /** The number of complete rows. */
  function FullCount(b: Board): nat
  {
    if b == [] then 0
    else (if Full(b[0]) then 1 else 0) + FullCount(b[1..])
  }

  /** The board after clearing: one empty row on top for every complete row
      removed, then the surviving rows. */
  function Cleared(b: Board): (c: Board)
    ensures |c| == |b|
  {
    KeptLength(b);
    EmptyRows(FullCount(b)) + Kept(b)
  }

  /** Every row is either kept or counted as complete. */
  lemma {:induction false} KeptLength(b: Board)
    ensures |Kept(b)| + FullCount(b) == |b|
  {
    if b != [] {
      KeptLength(b[1..]);
    }
  }

  /** Kept rows are incomplete and keep the width of the input rows. */
  lemma {:induction false} KeptRows(b: Board, w: nat)
    requires forall r :: 0 <= r < |b| ==> |b[r]| == w
    ensures forall r :: 0 <= r < |Kept(b)| ==> |Kept(b)[r]| == w && !Full(Kept(b)[r])
  {
    if b != [] {
      assert forall r :: 0 <= r < |b[1..]| ==> |b[1..][r]| == w by {
        forall r | 0 <= r < |b[1..]| ensures |b[1..][r]| == w {
          assert b[1..][r] == b[r + 1];
        }
      }
      KeptRows(b[1..], w);
    }
  }

  /** The board the bottom-up scan of the clearing loop holds once it has
      dealt with every original row from index m down, having removed k
      complete rows: k empty rows, the original rows above m, and the
      surviving rows from m on. */
  function ScanBoard(b0: Board, k: nat, m: nat): Board
    requires m <= |b0|
  {
    EmptyRows(k) + b0[..m] + Kept(b0[m..])
  }

  /** The row the scan examines next is original row m - 1. */
  lemma ScanRow(b0: Board, k: nat, m: nat)
    requires 0 < m <= |b0|
    ensures |ScanBoard(b0, k, m)| > k + m - 1
    ensures ScanBoard(b0, k, m)[k + m - 1] == b0[m - 1]
  {
    var pre := EmptyRows(k) + b0[..m - 1];
    assert b0[..m] == b0[..m - 1] + [b0[m - 1]];
    assert ScanBoard(b0, k, m) == pre + [b0[m - 1]] + Kept(b0[m..]);
  }

  /** Above the original rows the scan only meets empty rows. */
  lemma ScanTop(b0: Board, k: nat, y: nat)
    requires y < k
    ensures ScanBoard(b0, k, 0)[y] == EmptyRow() && !Full(EmptyRow())
  {
    assert EmptyRow()[0] == Empty;
  }

  /** Splicing out a complete original row m - 1 and putting an empty row
      on top is the scan state with one more removal. */
  lemma ScanRemove(b0: Board, k: nat, m: nat)
    requires 0 < m <= |b0| && Full(b0[m - 1]) && k == FullCount(b0[m..])
    ensures var bd := ScanBoard(b0, k, m);
      var y := k + m - 1;
      && y < |bd|
      && [EmptyRow()] + (bd[..y] + bd[y + 1..]) == ScanBoard(b0, k + 1, m - 1)
      && FullCount(b0[m - 1..]) == k + 1
  {
    var bd := ScanBoard(b0, k, m);
    var y := k + m - 1;
    var pre := EmptyRows(k) + b0[..m - 1];
    assert b0[m - 1..][0] == b0[m - 1] && b0[m - 1..][1..] == b0[m..];
    assert b0[..m] == b0[..m - 1] + [b0[m - 1]];
    assert bd == pre + [b0[m - 1]] + Kept(b0[m..]);
    assert bd[..y] == pre;
    assert bd[y + 1..] == Kept(b0[m..]);
    assert [EmptyRow()] + EmptyRows(k) == EmptyRows(k + 1);
    assert Kept(b0[m - 1..]) == Kept(b0[m..]);
  }

  /** One step of the scan at index y, which holds original row m - 1 or,
      once every original row has been dealt with, an empty row: a
      complete row is spliced out with an empty row put on top, an
      incomplete original row joins the survivors. */
  lemma ScanStep(b0: Board, k: nat, m: nat, y: int)
    requires 0 <= y && m <= |b0| && y + 1 <= k + m && (m == 0 || y + 1 == k + m)
    requires k == FullCount(b0[m..])
    ensures var bd := ScanBoard(b0, k, m);
      && y < |bd|
      && (Full(bd[y]) ==>
            && m > 0
            && [EmptyRow()] + (bd[..y] + bd[y + 1..]) == ScanBoard(b0, k + 1, m - 1)
            && k + 1 == FullCount(b0[m - 1..]))
      && (!Full(bd[y]) && m > 0 ==>
            && bd == ScanBoard(b0, k, m - 1)
            && k == FullCount(b0[m - 1..]))
  {
    if m > 0 {
      ScanRow(b0, k, m);
      if Full(b0[m - 1]) {
        ScanRemove(b0, k, m);
      } else {
        ScanKeep(b0, k, m);
      }
    } else {
      ScanTop(b0, k, y);
    }
  }

  /** Once every original row has been dealt with, the scan has produced
      the cleared board. */
  lemma ScanDone(b0: Board, k: nat)
    requires k == FullCount(b0[0..])
    ensures ScanBoard(b0, k, 0) == Cleared(b0) && k == FullCount(b0)
  {
    assert b0[..0] == [] && b0[0..] == b0;
  }

  /** Passing over an incomplete original row m - 1 leaves the board alone
      and moves the row into the surviving suffix. */
  lemma ScanKeep(b0: Board, k: nat, m: nat)
    requires 0 < m <= |b0| && !Full(b0[m - 1]) && k == FullCount(b0[m..])
    ensures ScanBoard(b0, k, m) == ScanBoard(b0, k, m - 1)
    ensures FullCount(b0[m - 1..]) == k
  {
    assert b0[m - 1..][0] == b0[m - 1] && b0[m - 1..][1..] == b0[m..];
    assert b0[..m] == b0[..m - 1] + [b0[m - 1]];
    assert Kept(b0[m - 1..]) == [b0[m - 1]] + Kept(b0[m..]);
  }

  /** A board with no complete row loses nothing. */
  lemma {:induction false} KeptNoFull(b: Board)
    requires NoFullRow(b)
    ensures Kept(b) == b && FullCount(b) == 0
  {
    if b != [] {
      assert !Full(b[0]);
      assert NoFullRow(b[1..]) by {
        forall r | 0 <= r < |b[1..]| ensures !Full(b[1..][r]) {
          assert b[1..][r] == b[r + 1];
        }
      }
      KeptNoFull(b[1..]);
      assert [b[0]] + b[1..] == b;
    }
  }

  /** Clearing keeps a 20x10 board, leaves no complete row, removes exactly
      the complete rows, and does nothing to a board without one. */
  lemma ClearedFacts(b: Board)
    requires IsBoard(b)
    ensures IsBoard(Cleared(b)) && NoFullRow(Cleared(b))
    ensures |Kept(b)| == Height - FullCount(b)
    ensures Cleared(b)[..FullCount(b)] == EmptyRows(FullCount(b))
    ensures Cleared(b)[FullCount(b)..] == Kept(b)
    ensures NoFullRow(b) ==> Cleared(b) == b
  {
    KeptLength(b);
    KeptRows(b, Width);
    var n := FullCount(b);
    var cb := Cleared(b);
    assert |cb| == Height;
    forall r | 0 <= r < Height ensures |cb[r]| == Width && !Full(cb[r]) {
      if r < n {
        assert cb[r] == EmptyRow();
        assert cb[r][0] == Empty;
      } else {
        assert cb[r] == Kept(b)[r - n];
      }
    }
    if NoFullRow(b) {
      KeptNoFull(b);
    }
  }

  /** Locking only changes the rows the piece spans. */
  lemma LockedRowsOutside(b: Board, p: Piece, r: int)
    requires IsBoard(b) && IsShape(p.shape)
    requires 0 <= r < Height && !(p.y <= r < p.y + 4)
    ensures Locked(b, p)[r] == b[r]
  {
  }

  /** Complete rows all lying in rows lo..hi-1 number at most hi - lo. */
  lemma {:induction false} FullCountWindow(b: Board, lo: nat, hi: nat)
    requires lo <= hi
    requires forall r :: 0 <= r < |b| && Full(b[r]) ==> lo <= r < hi
    ensures FullCount(b) <= hi - lo
  {
    if b != [] {
      var lo' := if lo > 0 then lo - 1 else 0;
      var hi' := if hi > 0 then hi - 1 else 0;
      forall r | 0 <= r < |b[1..]| && Full(b[1..][r]) ensures lo' <= r < hi' {
        assert b[1..][r] == b[r + 1];
      }
      FullCountWindow(b[1..], lo', hi');
      if Full(b[0]) {
        assert lo == 0;
      }
    }
  }

  /** If the board had no complete row, locking a piece completes at most
      four rows, so the line-score table index stays in range. */
  lemma LockedFullRows(b: Board, p: Piece)
    requires IsBoard(b) && NoFullRow(b) && IsShape(p.shape)
    ensures FullCount(Locked(b, p)) <= 4
  {
    var lb := Locked(b, p);
    var lo: nat := if p.y > 0 then p.y else 0;
    var hi: nat := if p.y + 4 > lo then p.y + 4 else lo;
    forall r | 0 <= r < |lb| && Full(lb[r]) ensures lo <= r < hi {
      if !(p.y <= r < p.y + 4) {
        LockedRowsOutside(b, p, r);
        assert false;
      }
    }
    FullCountWindow(lb, lo, hi);
  }

  // ---------------------------------------------------------------------
  // Scoring, level and drop interval

  /** Points for clearing n rows at level 1: the table [0, 100, 300, 500, 800]. */
  function LinePoints(n: nat): (points: nat)
    requires n <= 4
    ensures points % 100 == 0 && (points == 0 <==> n == 0)
    ensures n > 0 ==> points >= 100 * n
  {
    [0, 100, 300, 500, 800][n]
  }

  /** What a clear of n rows earns at a level: the table entry times the level. */
  function ClearScore(n: nat, level: nat): nat
    requires n <= 4
  {
    LinePoints(n) * level
  }

  /** The level that a cumulative line count earns. */
  function LevelFor(lines: nat): (level: nat)
    ensures level >= 1 && (level - 1) * 10 <= lines < level * 10
  {
    lines / 10 + 1
  }

  /** Whether clearing n rows pushes the level above the current one. */
  predicate LevelsUp(lines: nat, level: nat, n: nat)
  {
    n > 0 && LevelFor(lines + n) > level
  }

  /** The tick interval in milliseconds at a level. */
  function Interval(level: int): (ms: int)
    ensures ms >= 100 && ms % 100 == 0
    ensures level <= 1 ==> ms >= 1000
    ensures level >= 10 ==> ms == 100
  {
    Max(100, 1000 - (level - 1) * 100)
  }

  /** The interval lies between 100 and 1000 ms and shrinks as the level rises. */
  lemma IntervalFacts(a: int, b: int)
    requires 1 <= a <= b
    ensures 100 <= Interval(a) <= 1000
    ensures Interval(b) <= Interval(a)
  {
  }

  // ---------------------------------------------------------------------
  // Hard drop

  /** How many rows the piece can fall before a downward move fails. */
  function DropDistance(b: Board, p: Piece): (d: nat)
    requires IsBoard(b) && IsShape(p.shape) && HasCell(p.shape)
    ensures d > 0 <==> Fits(b, p, 0, 1)
    ensures d > 0 ==> p.y + d < Height
    decreases Height - p.y
  {
    if Fits(b, p, 0, 1) then
      FitsAboveFloor(b, p, 1);
      1 + DropDistance(b, Shifted(p, 0, 1))
    else 0
  }

  /** Every move down along the way succeeds and the one after the last
      fails: the piece comes to rest where a downward move is invalid. */
  lemma {:induction false} DropDistanceSpec(b: Board, p: Piece)
    requires IsBoard(b) && IsShape(p.shape) && HasCell(p.shape)
    ensures forall i :: 0 <= i < DropDistance(b, p) ==> Fits(b, Shifted(p, 0, i), 0, 1)
    ensures !Fits(b, Shifted(p, 0, DropDistance(b, p)), 0, 1)
    decreases Height - p.y
  {
    if Fits(b, p, 0, 1) {
      FitsAboveFloor(b, p, 1);
      var q := Shifted(p, 0, 1);
      DropDistanceSpec(b, q);
      forall i | 0 <= i < DropDistance(b, p) ensures Fits(b, Shifted(p, 0, i), 0, 1) {
        if i > 0 {
          assert Shifted(q, 0, i - 1) == Shifted(p, 0, i);
        } else {
          assert Shifted(p, 0, 0) == p;
        }
      }
      assert Shifted(q, 0, DropDistance(b, q)) == Shifted(p, 0, DropDistance(b, p));
    } else {
      assert Shifted(p, 0, 0) == p;
    }
  }

  // ---------------------------------------------------------------------
  // Engine state as a value

  /** A snapshot of every field of the engine the rules read or write.
      `timer` is the period of the scheduled tick timer, None when cleared;
      `cues` is the log of sound cues requested so far. */
  datatype TetrisState = TetrisState(
    board: Board,
    current: Option<Piece>,
    score: nat,
    level: nat,
    lines: nat,
    isRunning: bool,
    isPaused: bool,
    timer: Option<int>,
    highScore: nat,
    cues: seq<Cue>)

  /** What holds between steps. Before the first reset there is no board
      and no piece and nothing runs; afterwards the board is 20x10 with no
      complete row and the piece's shape is a 4x4 matrix with an occupied
      cell. Paused implies running; the level is the one the lines earn. */
  ghost predicate Inv(s: TetrisState)
  {
    && (s.current.None? ==> s.board == [] && !s.isRunning)
    && (s.current.Some? ==>
          IsBoard(s.board) && NoFullRow(s.board)
          && IsShape(s.current.value.shape) && HasCell(s.current.value.shape))
    && (s.isPaused ==> s.isRunning)
    && s.level == LevelFor(s.lines)
  }

  /** The first half of the landing sequence: lock the piece, clear the
      complete rows, score them, update lines and level (a level-up restarts
      the timer at the new interval and marks the game running and
      unpaused), and request the line-clear cue when rows went. The landed
      piece is still the current one. */
  function Landed(s: TetrisState): TetrisState
    requires Inv(s) && s.current.Some?
  {
    var locked := Locked(s.board, s.current.value);
    LockedFullRows(s.board, s.current.value);
    var n := FullCount(locked);
    var up := LevelsUp(s.lines, s.level, n);
    s.(board := Cleared(locked),
       score := s.score + ClearScore(n, s.level),
       lines := s.lines + n,
       level := if up then LevelFor(s.lines + n) else s.level,
       isRunning := up || s.isRunning,
       isPaused := !up && s.isPaused,
       timer := if up then Some(Interval(LevelFor(s.lines + n))) else s.timer,
       cues := s.cues + (if up then [Cue.LevelUp] else []) + (if n > 0 then [Cue.LineClear] else []))
  }

  /** The second half: spawn the next piece from `roll` and end the game
      when it does not fit. Ending stops the timer, clears both flags and
      records a new high score. */
  function Spawned(s: TetrisState, roll: nat): TetrisState
    requires IsBoard(s.board) && roll < 7
  {
    var next := Spawn(roll);
    var fits := Fits(s.board, next, 0, 0);
    s.(current := Some(next),
       isRunning := fits && s.isRunning,
       isPaused := fits && s.isPaused,
       timer := if fits then s.timer else None,
       highScore := if fits then s.highScore else Max(s.highScore, s.score),
       cues := s.cues + (if fits then [] else [Cue.GameOver]))
  }

  /** The landing half keeps the invariant. */
  lemma LandedKeepsInv(s: TetrisState)
    requires Inv(s) && s.current.Some?
    ensures Inv(Landed(s))
  {
    ClearedFacts(Locked(s.board, s.current.value));
  }

  /** The whole landing sequence. */
  function Settle(s: TetrisState, roll: nat): TetrisState
    requires Inv(s) && s.current.Some? && roll < 7
  {
    LandedKeepsInv(s);
    Spawned(Landed(s), roll)
  }

  /** The hard drop before its landing: the piece moved down by its drop
      distance and two points scored per row fallen. */
  function Dropped(s: TetrisState): (t: TetrisState)
    requires Inv(s) && s.current.Some?
    ensures Inv(t) && t.current.Some?
  {
    var p := s.current.value;
    var d := DropDistance(s.board, p);
    s.(current := Some(Shifted(p, 0, d)), score := s.score + 2 * d)
  }

  /** The dropped piece rests where a move down fails, every row of the
      fall was a valid move, and the score grew by exactly twice the
      distance; nothing else changes. */
  lemma DroppedRests(s: TetrisState)
    requires Inv(s) && s.current.Some?
    ensures var p := s.current.value;
      var d := DropDistance(s.board, p);
      var t := Dropped(s);
      && t.current == Some(Shifted(p, 0, d))
      && !Fits(s.board, t.current.value, 0, 1)
      && (forall i :: 0 <= i < d ==> Fits(s.board, Shifted(p, 0, i), 0, 1))
      && t.score == s.score + 2 * d
      && t == s.(current := t.current, score := t.score)
  {
    DropDistanceSpec(s.board, s.current.value);
  }

  /** The landing sequence keeps the invariant. */
  lemma SettleKeepsInv(s: TetrisState, roll: nat)
    requires Inv(s) && s.current.Some? && roll < 7
    ensures Inv(Settle(s, roll))
  {
    LandedKeepsInv(s);
  }

  /** Scoring at a landing: n complete rows earn LinePoints(n) times the
      level before the clear, lines grow by n, the level is the one the new
      line count earns (so it never decreases), and the board keeps no
      complete row. */
  lemma SettleScoring(s: TetrisState, roll: nat)
    requires Inv(s) && s.current.Some? && roll < 7
    ensures var n := FullCount(Locked(s.board, s.current.value));
      var t := Settle(s, roll);
      && n <= 4
      && t.score == s.score + ClearScore(n, s.level)
      && t.lines == s.lines + n
      && t.level == LevelFor(t.lines) && t.level >= s.level
      && t.board == Cleared(Locked(s.board, s.current.value)) && NoFullRow(t.board)
  {
    LockedFullRows(s.board, s.current.value);
    ClearedFacts(Locked(s.board, s.current.value));
  }

  /** In a running game the landing sequence keeps it running exactly when
      the newly spawned piece at (3, 0) is valid on the cleared board. */
  lemma SettleGameOver(s: TetrisState, roll: nat)
    requires Inv(s) && s.current.Some? && roll < 7 && s.isRunning
    ensures var t := Settle(s, roll);
      && t.current == Some(Spawn(roll))
      && IsBoard(t.board)
      && (t.isRunning <==> Fits(t.board, Spawn(roll), 0, 0))
      && (!t.isRunning ==> t.timer == None && !t.isPaused && t.highScore == Max(s.highScore, t.score)
                           && t.cues[|t.cues| - 1] == Cue.GameOver)
  {
    ClearedFacts(Locked(s.board, s.current.value));
  }
}
