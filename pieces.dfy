/** The tetromino table, piece creation and the clockwise rotation of a piece matrix. */
module Pieces {

  /** The seven piece types, the keys of the shape table. */
  datatype Kind = I | O | T | S | Z | J | L

  datatype Option<V> = None | Some(value: V)

  /** A cell of a piece matrix: 0, or the type tag that createPiece stores. */
  datatype Block = Empty | Mino(kind: Kind)

  /** The shape table: one row-major matrix of 0/1 per type, one or two rows of equal width. */
  function Shape(k: Kind): (s: seq<seq<int>>)
    ensures Rect(s) && |s| <= 2 && |s[0]| <= 4
    ensures forall i, j :: 0 <= i < |s| && 0 <= j < |s[i]| ==> s[i][j] == 0 || s[i][j] == 1
  {
    match k
    case I => [[1, 1, 1, 1]]
    case O => [[1, 1], [1, 1]]
    case T => [[0, 1, 0], [1, 1, 1]]
    case S => [[0, 1, 1], [1, 1, 0]]
    case Z => [[1, 1, 0], [0, 1, 1]]
    case J => [[1, 0, 0], [1, 1, 1]]
    case L => [[0, 0, 1], [1, 1, 1]]
  }

  /** The colour that a locked piece of each type leaves in the arena: a CSS "#rrggbb". */
  function Color(k: Kind): (c: string)
    ensures |c| == 7 && c[0] == '#'
  {
    match k
    case I => "#00ffff"
    case O => "#ffff00"
    case T => "#ff00ff"
    case S => "#00ff00"
    case Z => "#ff0000"
    case J => "#0000ff"
    case L => "#ff8800"
  }

  /** createPiece: the type's shape with every non-zero cell replaced by the type tag. */
  function CreatePiece(k: Kind): (m: seq<seq<Block>>)
    ensures 1 <= |m| <= 2 && 2 <= |m[0]| <= 4
  {
    var shape := Shape(k);
    seq(|shape|, i requires 0 <= i < |shape| =>
      seq(|shape[i]|, j requires 0 <= j < |shape[i]| =>
        if shape[i][j] == 0 then Empty else Mino(k)))
  }

  /** A non-empty rectangular matrix: rotate reads the width from row 0. */
  ghost predicate Rect<X>(m: seq<seq<X>>)
  {
    |m| > 0 && |m[0]| > 0 && forall i :: 0 <= i < |m| ==> |m[i]| == |m[0]|
  }

  /** Row i of a rectangle holds a block. */
  ghost predicate RowOccupied(m: seq<seq<Block>>, i: int)
    requires Rect(m)
  {
    0 <= i < |m| && exists j :: 0 <= j < |m[0]| && m[i][j] != Empty
  }

  /** Column j of a rectangle holds a block. */
  ghost predicate ColumnOccupied(m: seq<seq<Block>>, j: int)
    requires Rect(m)
  {
    0 <= j < |m[0]| && exists i :: 0 <= i < |m| && m[i][j] != Empty
  }

  /** A rectangle with no empty row and no empty column: the bounding box of its blocks. */
  ghost predicate Tight(m: seq<seq<Block>>)
  {
    Rect(m) &&
    (forall i :: 0 <= i < |m| ==> RowOccupied(m, i)) &&
    (forall j :: 0 <= j < |m[0]| ==> ColumnOccupied(m, j))
  }

  /** The coordinates (row, column) of the occupied cells of a matrix. */
  ghost function Cells(m: seq<seq<Block>>): set<(int, int)>
  {
    set i, j | 0 <= i < |m| && 0 <= j < |m[i]| && m[i][j] != Empty :: (i, j)
  }

  /** Every piece that createPiece builds is a tight 1..2 by 2..4 rectangle tagged with its own type. */
  lemma PieceIsTetromino(k: Kind)
    ensures var m := CreatePiece(k);
      |m| == |Shape(k)| && (forall i :: 0 <= i < |m| ==> |m[i]| == |Shape(k)[i]|) &&
      Tight(m) && 1 <= |m| <= 2 && 2 <= |m[0]| <= 4 &&
      (forall i, j :: 0 <= i < |m| && 0 <= j < |m[i]| ==>
        (m[i][j] == Empty <==> Shape(k)[i][j] == 0) && (m[i][j] == Empty || m[i][j] == Mino(k)))
  {
    var m := CreatePiece(k);
    var shape := Shape(k);
    assert |m| == |shape| && forall i :: 0 <= i < |m| ==> |m[i]| == |shape[i]|;
    // Row witnesses: every row has a block at its first, second or last column. Column
    // witnesses: the last row of every shape is full except in S and Z, whose two rows
    // together cover every column.
    forall i | 0 <= i < |m| ensures RowOccupied(m, i) {
      var w := |m[0]|;
      assert m[i][0] != Empty || m[i][1] != Empty || m[i][w - 1] != Empty;
    }
    forall j | 0 <= j < |m[0]| ensures ColumnOccupied(m, j) {
      if k == S || k == Z {
        if m[0][j] == Empty { assert m[1][j] != Empty; }
      } else {
        assert m[|m| - 1][j] != Empty;
      }
    }
  }

  /** Distinct types leave distinct colours. */
  lemma ColorsDistinct(k1: Kind, k2: Kind)
    requires k1 != k2
    ensures Color(k1) != Color(k2)
  {
  }

  /** The clockwise quarter turn of rotate: an N x M matrix becomes M x N with r[i][j] = m[N-1-j][i]. */
  ghost function Rotated<X>(m: seq<seq<X>>): (r: seq<seq<X>>)
    requires Rect(m)
  {
    seq(|m[0]|, i requires 0 <= i < |m[0]| =>
      seq(|m|, j requires 0 <= j < |m| => m[|m| - 1 - j][i]))
  }

  /** rotate: builds the turned matrix row by row with two nested loops. */
  method Rotate<X>(m: seq<seq<X>>) returns (r: seq<seq<X>>)
    requires Rect(m)
    ensures Rect(r) && |r| == |m[0]| && |r[0]| == |m|
    ensures forall i, j :: 0 <= i < |r| && 0 <= j < |r[i]| ==> r[i][j] == m[|m| - 1 - j][i]
    ensures r == Rotated(m)
  {
    var n, w := |m|, |m[0]|;
    r := [];
    var i := 0;
    while i < w
      invariant 0 <= i <= w && |r| == i
      invariant forall a :: 0 <= a < i ==> |r[a]| == n
      invariant forall a, b :: 0 <= a < i && 0 <= b < n ==> r[a][b] == m[n - 1 - b][a]
    {
      var row := [];
      var j := 0;
      while j < n
        invariant 0 <= j <= n && |row| == j
        invariant forall b :: 0 <= b < j ==> row[b] == m[n - 1 - b][i]
      {
        row := row + [m[n - 1 - j][i]];
        j := j + 1;
      }
      r := r + [row];
      i := i + 1;
    }
    assert |r| == |Rotated(m)|;
    forall a | 0 <= a < w ensures r[a] == Rotated(m)[a] {
      assert |r[a]| == |Rotated(m)[a]|;
    }
  }

  /** Turning keeps a matrix tight: row i of the result is column i of the original. */
  lemma RotatedTight(m: seq<seq<Block>>)
    requires Tight(m)
    ensures Tight(Rotated(m)) && |Rotated(m)| == |m[0]| && |Rotated(m)[0]| == |m|
  {
    var r := Rotated(m);
    var n := |m|;
    forall i | 0 <= i < |r| ensures RowOccupied(r, i) {
      assert ColumnOccupied(m, i);
      var a :| 0 <= a < n && m[a][i] != Empty;
      assert r[i][n - 1 - a] == m[a][i];
    }
    forall j | 0 <= j < |r[0]| ensures ColumnOccupied(r, j) {
      assert RowOccupied(m, n - 1 - j);
      var b :| 0 <= b < |m[0]| && m[n - 1 - j][b] != Empty;
      assert r[b][j] == m[n - 1 - j][b];
    }
  }

  /** Two quarter turns make a half turn: each cell goes to the point-mirrored position. */
  lemma RotatedTwice<X>(m: seq<seq<X>>)
    requires Rect(m)
    ensures Rect(Rotated(m)) && Rect(Rotated(Rotated(m)))
    ensures var h := Rotated(Rotated(m));
      |h| == |m| && |h[0]| == |m[0]| &&
      forall i, j :: 0 <= i < |m| && 0 <= j < |m[0]| ==> h[i][j] == m[|m| - 1 - i][|m[0]| - 1 - j]
  {
    var r := Rotated(m);
    assert |r[0]| == |m|;
    var h := Rotated(r);
    forall i, j | 0 <= i < |m| && 0 <= j < |m[0]|
      ensures h[i][j] == m[|m| - 1 - i][|m[0]| - 1 - j]
    {
      assert h[i][j] == r[|m[0]| - 1 - j][i];
    }
  }

  /** Four quarter turns give back the original matrix. */
  lemma {:induction false} RotatedFourTimes<X>(m: seq<seq<X>>)
    requires Rect(m)
    ensures Rect(Rotated(Rotated(m))) && Rect(Rotated(Rotated(Rotated(m))))
    ensures Rotated(Rotated(Rotated(Rotated(m)))) == m
  {
    RotatedTwice(m);
    var h := Rotated(Rotated(m));
    RotatedTwice(h);
    var f := Rotated(Rotated(h));
    assert |f| == |m|;
    forall i | 0 <= i < |m| ensures f[i] == m[i] {
      assert |f[i]| == |m[i]|;
      forall j | 0 <= j < |m[i]| ensures f[i][j] == m[i][j] {
        assert f[i][j] == h[|m| - 1 - i][|m[0]| - 1 - j];
      }
    }
  }

  /** The image of a set of cells under the quarter turn of an n-row matrix. */
  ghost function Turned(s: set<(int, int)>, n: int): set<(int, int)>
  {
    set p | p in s :: (p.1, n - 1 - p.0)
  }

  /** The quarter turn is one-to-one on cells, so it keeps their number. */
  lemma {:induction false} TurnedSize(s: set<(int, int)>, n: int)
    ensures |Turned(s, n)| == |s|
    decreases |s|
  {
    if s != {} {
      var p :| p in s;
      var rest := s - {p};
      TurnedSize(rest, n);
      assert Turned(s, n) == Turned(rest, n) + {(p.1, n - 1 - p.0)};
    }
  }

  /** Rotation keeps the number of occupied cells. */
  lemma RotatedCellCount(m: seq<seq<Block>>)
    requires Rect(m)
    ensures Cells(Rotated(m)) == Turned(Cells(m), |m|)
    ensures |Cells(Rotated(m))| == |Cells(m)|
  {
    var r := Rotated(m);
    var n := |m|;
    forall p | p in Cells(r) ensures p in Turned(Cells(m), n) {
      var i, j := p.0, p.1;
      assert r[i][j] == m[n - 1 - j][i];
      assert (n - 1 - j, i) in Cells(m);
    }
    forall p | p in Turned(Cells(m), n) ensures p in Cells(r) {
      var q :| q in Cells(m) && p == (q.1, n - 1 - q.0);
      assert r[q.1][n - 1 - q.0] == m[q.0][q.1];
    }
    TurnedSize(Cells(m), n);
  }
}
