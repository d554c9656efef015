/** The arena: a fixed grid of squares, collision of a piece against it, merging a piece
    into it and sweeping completed rows out of it. */
module Board {
  import opened Pieces

  const ROWS := 20
  const COLS := 10

  /** An arena square: 0, or the colour string that merge stores. */
  datatype Square = Free | Painted(colour: string)

  /** The piece's offset into the arena: column x, row y (row 0 at the top). */
  datatype Pos = Pos(x: int, y: int)

  type Arena = seq<seq<Square>>

  /** A row of w free squares. */
  function BlankRow(w: nat): seq<Square>
  {
    seq(w, _ => Free)
  }

  /** The arena keeps ROWS rows of COLS squares for the whole game. */
  ghost predicate Shaped(a: Arena)
  {
    |a| == ROWS && forall r :: 0 <= r < |a| ==> |a[r]| == COLS
  }

  /** createMatrix: pushes h rows of w zeros. */
  method CreateMatrix(w: nat, h: nat) returns (m: Arena)
    ensures |m| == h && forall r :: 0 <= r < h ==> m[r] == BlankRow(w)
  {
    m := [];
    var left := h;
    while left > 0
      invariant 0 <= left <= h && |m| == h - left
      invariant forall r :: 0 <= r < |m| ==> m[r] == BlankRow(w)
    {
      m := m + [BlankRow(w)];
      left := left - 1;
    }
  }

  // ---------------------------------------------------------------- collide

  /** What collide treats as a wall or an obstacle: a row or a column outside the arena,
      or a square that is not 0. */
  predicate Blocked(a: Arena, r: int, c: int)
  {
    !(0 <= r < |a|) || !(0 <= c < |a[r]|) || a[r][c] != Free
  }

  /** Some block of piece m, placed at offset p, lands on a wall or an occupied square. */
  ghost predicate Obstructed(a: Arena, m: seq<seq<Block>>, p: Pos)
  {
    exists i, j :: 0 <= i < |m| && 0 <= j < |m[i]| && m[i][j] != Empty && Blocked(a, p.y + i, p.x + j)
  }

  /** The inner loop of collide over row `row` of the piece, which lies on arena row r,
      from column j on. */
  function RowCollides(a: Arena, row: seq<Block>, r: int, ox: int, j: nat): bool
    requires j <= |row|
    decreases |row| - j
  {
    if j == |row| then false
    else (row[j] != Empty && Blocked(a, r, ox + j)) || RowCollides(a, row, r, ox, j + 1)
  }

  /** The outer loop of collide, from piece row i on. */
  function RowsCollide(a: Arena, m: seq<seq<Block>>, p: Pos, i: nat): bool
    requires i <= |m|
    decreases |m| - i
  {
    if i == |m| then false
    else RowCollides(a, m[i], p.y + i, p.x, 0) || RowsCollide(a, m, p, i + 1)
  }

  /** collide: true exactly when some block of the piece is outside the arena or on an
      occupied square. */
  function Collides(a: Arena, m: seq<seq<Block>>, p: Pos): bool
  {
    RowsCollide(a, m, p, 0)
  }

  /** The inner loop reports a blocked block from column j on exactly when there is one. */
  lemma {:induction false} RowCollidesSpec(a: Arena, row: seq<Block>, r: int, ox: int, j: nat)
    requires j <= |row|
    ensures RowCollides(a, row, r, ox, j) <==>
      exists k :: j <= k < |row| && row[k] != Empty && Blocked(a, r, ox + k)
    decreases |row| - j
  {
    if j < |row| {
      RowCollidesSpec(a, row, r, ox, j + 1);
    }
  }

  /** The outer loop reports a blocked block from piece row i on exactly when there is one. */
  lemma {:induction false} RowsCollideSpec(a: Arena, m: seq<seq<Block>>, p: Pos, i: nat)
    requires i <= |m|
    ensures RowsCollide(a, m, p, i) <==>
      exists k, j :: i <= k < |m| && 0 <= j < |m[k]| && m[k][j] != Empty && Blocked(a, p.y + k, p.x + j)
    decreases |m| - i
  {
    if i < |m| {
      RowCollidesSpec(a, m[i], p.y + i, p.x, 0);
      RowsCollideSpec(a, m, p, i + 1);
    }
  }

  /** collide is true exactly when some block of the piece lands on a wall, the floor, the
      space above the arena or an occupied square. */
  lemma CollidesSpec(a: Arena, m: seq<seq<Block>>, p: Pos)
    ensures Collides(a, m, p) <==> Obstructed(a, m, p)
  {
    RowsCollideSpec(a, m, p, 0);
  }

  /** A placement that does not collide keeps the whole bounding box of a tight piece
      inside the arena. */
  lemma ClearPlacementInBounds(a: Arena, m: seq<seq<Block>>, p: Pos)
    requires Shaped(a) && Tight(m) && !Collides(a, m, p)
    ensures 0 <= p.x && p.x + |m[0]| <= COLS && 0 <= p.y && p.y + |m| <= ROWS
  {
    CollidesSpec(a, m, p);
    assert ColumnOccupied(m, 0);
    var i0 :| 0 <= i0 < |m| && m[i0][0] != Empty;
    assert !Blocked(a, p.y + i0, p.x);
    var w := |m[0]|;
    assert ColumnOccupied(m, w - 1);
    var i1 :| 0 <= i1 < |m| && m[i1][w - 1] != Empty;
    assert !Blocked(a, p.y + i1, p.x + w - 1);
    assert RowOccupied(m, 0);
    var j0 :| 0 <= j0 < w && m[0][j0] != Empty;
    assert !Blocked(a, p.y, p.x + j0);
    assert RowOccupied(m, |m| - 1);
    var j1 :| 0 <= j1 < w && m[|m| - 1][j1] != Empty;
    assert !Blocked(a, p.y + |m| - 1, p.x + j1);
  }

  // ---------------------------------------------------------------- merge

  /** Piece m at offset p has a block over arena square (r, c). */
  ghost predicate Covers(m: seq<seq<Block>>, p: Pos, r: int, c: int)
  {
    0 <= r - p.y < |m| && 0 <= c - p.x < |m[r - p.y]| && m[r - p.y][c - p.x] != Empty
  }

  /** The arena after merge: every square under a block of the piece holds the colour,
      every other square is as it was. */
  ghost function Merged(a: Arena, m: seq<seq<Block>>, p: Pos, colour: string): Arena
  {
    seq(|a|, r requires 0 <= r < |a| =>
      seq(|a[r]|, c requires 0 <= c < |a[r]| => if Covers(m, p, r, c) then Painted(colour) else a[r][c]))
  }

  /** The occupied squares of an arena, as (row, column) pairs. */
  ghost function Occupied(a: Arena): set<(int, int)>
  {
    set r, c | 0 <= r < |a| && 0 <= c < |a[r]| && a[r][c] != Free :: (r, c)
  }

  /** The cells of a piece moved to offset p. */
  ghost function Shifted(s: set<(int, int)>, p: Pos): set<(int, int)>
  {
    set q | q in s :: (q.0 + p.y, q.1 + p.x)
  }

  lemma {:induction false} ShiftedSize(s: set<(int, int)>, p: Pos)
    ensures |Shifted(s, p)| == |s|
    decreases |s|
  {
    if s != {} {
      var q :| q in s;
      ShiftedSize(s - {q}, p);
      ShiftedRemove(s, q, p);
    }
  }

  /** Taking one cell out of a set takes exactly its shifted image out of the shifted set. */
  lemma ShiftedRemove(s: set<(int, int)>, q: (int, int), p: Pos)
    requires q in s
    ensures Shifted(s, p) == Shifted(s - {q}, p) + {(q.0 + p.y, q.1 + p.x)}
    ensures (q.0 + p.y, q.1 + p.x) !in Shifted(s - {q}, p)
  {
  }

  /** One square of the merged arena. */
  lemma MergedAt(a: Arena, m: seq<seq<Block>>, p: Pos, colour: string, r: int, c: int)
    requires 0 <= r < |a| && 0 <= c < |a[r]|
    ensures |Merged(a, m, p, colour)| == |a| && |Merged(a, m, p, colour)[r]| == |a[r]|
    ensures Merged(a, m, p, colour)[r][c] == if Covers(m, p, r, c) then Painted(colour) else a[r][c]
  {
  }

  /** The squares under the blocks of a piece that does not collide were free and are
      occupied after the merge. */
  lemma MergeFillsPiece(a: Arena, m: seq<seq<Block>>, p: Pos, colour: string)
    requires !Collides(a, m, p)
    ensures forall q :: q in Shifted(Cells(m), p) ==> q !in Occupied(a) && q in Occupied(Merged(a, m, p, colour))
  {
    forall q | q in Shifted(Cells(m), p)
      ensures q !in Occupied(a) && q in Occupied(Merged(a, m, p, colour))
    {
      var cell :| cell in Cells(m) && q == (cell.0 + p.y, cell.1 + p.x);
      MergeFillsCell(a, m, p, colour, cell.0, cell.1);
    }
  }

  /** One block of a piece that does not collide: its square was free and is occupied
      after the merge. */
  lemma MergeFillsCell(a: Arena, m: seq<seq<Block>>, p: Pos, colour: string, i: int, j: int)
    requires !Collides(a, m, p) && (i, j) in Cells(m)
    ensures (p.y + i, p.x + j) !in Occupied(a)
    ensures (p.y + i, p.x + j) in Occupied(Merged(a, m, p, colour))
  {
    CollidesSpec(a, m, p);
    assert 0 <= i < |m| && 0 <= j < |m[i]| && m[i][j] != Empty;
    assert !Blocked(a, p.y + i, p.x + j);
    MergedAt(a, m, p, colour, p.y + i, p.x + j);
  }

  /** A square occupied after the merge was occupied before or lies under the piece. */
  lemma MergedSquareSource(a: Arena, m: seq<seq<Block>>, p: Pos, colour: string, r: int, c: int)
    requires 0 <= r < |a| && 0 <= c < |a[r]| && Merged(a, m, p, colour)[r][c] != Free
    ensures (r, c) in Occupied(a) || (r, c) in Shifted(Cells(m), p)
  {
    if Covers(m, p, r, c) {
      var cell := (r - p.y, c - p.x);
      assert cell in Cells(m);
      assert (r, c) == (cell.0 + p.y, cell.1 + p.x);
    } else {
      MergedAt(a, m, p, colour, r, c);
    }
  }

  /** Every square occupied after the merge was occupied before or lies under the piece. */
  lemma MergeAddsOnlyPiece(a: Arena, m: seq<seq<Block>>, p: Pos, colour: string)
    ensures Occupied(Merged(a, m, p, colour)) <= Occupied(a) + Shifted(Cells(m), p)
  {
    var b := Merged(a, m, p, colour);
    forall q | q in Occupied(b) ensures q in Occupied(a) + Shifted(Cells(m), p) {
      var r, c :| 0 <= r < |b| && 0 <= c < |b[r]| && b[r][c] != Free && q == (r, c);
      MergedAt(a, m, p, colour, r, c);
      MergedSquareSource(a, m, p, colour, r, c);
    }
  }

  /** Merging a piece that does not collide occupies exactly the piece's cells on top of
      what was occupied, so the number of occupied squares grows by the piece's size. */
  lemma MergeOccupies(a: Arena, m: seq<seq<Block>>, p: Pos, colour: string)
    requires !Collides(a, m, p)
    ensures Occupied(Merged(a, m, p, colour)) == Occupied(a) + Shifted(Cells(m), p)
    ensures Occupied(a) !! Shifted(Cells(m), p)
    ensures |Occupied(Merged(a, m, p, colour))| == |Occupied(a)| + |Cells(m)|
  {
    var b := Merged(a, m, p, colour);
    MergeFillsPiece(a, m, p, colour);
    MergeAddsOnlyPiece(a, m, p, colour);
    forall q | q in Occupied(a) ensures q in Occupied(b) {
      MergedAt(a, m, p, colour, q.0, q.1);
    }
    ShiftedSize(Cells(m), p);
  }

  // ---------------------------------------------------------------- arenaSweep

  /** A row in which no square is 0. */
  ghost predicate Full(row: seq<Square>)
  {
    forall c :: 0 <= c < |row| ==> row[c] != Free
  }

  /** arenaSweep's scan of one row, left to right, for a square that is still 0. */
  method IsFull(row: seq<Square>) returns (full: bool)
    ensures full <==> Full(row)
  {
    var x := 0;
    while x < |row|
      invariant 0 <= x <= |row|
      invariant forall c :: 0 <= c < x ==> row[c] != Free
    {
      if row[x] == Free {
        return false;
      }
      x := x + 1;
    }
    return true;
  }

  /** The number of full rows. */
  ghost function FullCount(a: Arena): nat
  {
    if a == [] then 0 else (if Full(a[0]) then 1 else 0) + FullCount(a[1..])
  }

  /** The rows that are not full, in their original order. */
  ghost function Kept(a: Arena): Arena
  {
    if a == [] then [] else (if Full(a[0]) then [] else [a[0]]) + Kept(a[1..])
  }

  /** n rows of COLS free squares. */
  ghost function Blanks(n: nat): Arena
  {
    seq(n, _ => BlankRow(COLS))
  }

  /** The arena after arenaSweep: every full row removed, the others in their order at the
      bottom, under as many new empty rows as were removed. */
  ghost function Swept(a: Arena): Arena
  {
    Blanks(FullCount(a)) + Kept(a)
  }

  /** Kept picks out exactly the rows that are not full, one per row it drops fewer than |a|. */
  lemma {:induction false} KeptRows(a: Arena)
    ensures |Kept(a)| + FullCount(a) == |a|
    ensures forall row :: row in Kept(a) <==> row in a && !Full(row)
  {
    if a != [] {
      KeptRows(a[1..]);
      assert a == [a[0]] + a[1..];
    }
  }

  /** Sweeping concatenated row blocks keeps the kept rows of each block, in order. */
  lemma {:induction false} KeptAppend(a: Arena, b: Arena)
    ensures Kept(a + b) == Kept(a) + Kept(b)
    decreases |a|
  {
    if a == [] {
      assert a + b == b;
    } else {
      assert (a + b)[0] == a[0] && (a + b)[1..] == a[1..] + b;
      KeptAppend(a[1..], b);
      var head := if Full(a[0]) then [] else [a[0]];
      assert Kept(a + b) == head + (Kept(a[1..]) + Kept(b));
      assert Kept(a) == head + Kept(a[1..]);
    }
  }

  /** The full rows of concatenated row blocks are those of each block. */
  lemma {:induction false} FullCountAppend(a: Arena, b: Arena)
    ensures FullCount(a + b) == FullCount(a) + FullCount(b)
    decreases |a|
  {
    if a == [] {
      assert a + b == b;
    } else {
      assert (a + b)[0] == a[0] && (a + b)[1..] == a[1..] + b;
      FullCountAppend(a[1..], b);
    }
  }

  /** A blank row of a non-empty width is never full. */
  lemma BlankNotFull(w: nat)
    requires w > 0
    ensures !Full(BlankRow(w))
  {
    assert BlankRow(w)[0] == Free;
  }

  /** The swept arena keeps its ROWS x COLS shape and holds no full row. */
  lemma SweptShape(a: Arena)
    requires Shaped(a)
    ensures Shaped(Swept(a))
    ensures forall r :: 0 <= r < |Swept(a)| ==> !Full(Swept(a)[r])
  {
    KeptRows(a);
    BlankNotFull(COLS);
    var s := Swept(a);
    forall r | 0 <= r < |s| ensures |s[r]| == COLS && !Full(s[r]) {
      if r >= FullCount(a) {
        assert s[r] == Kept(a)[r - FullCount(a)];
        assert s[r] in Kept(a);
      }
    }
  }

  /** With no full row there is nothing to remove. */
  lemma {:induction false} KeptAllWhenNoneFull(a: Arena)
    requires forall r :: 0 <= r < |a| ==> !Full(a[r])
    ensures FullCount(a) == 0 && Kept(a) == a
  {
    if a != [] {
      KeptAllWhenNoneFull(a[1..]);
    }
  }

  /** A sweep changes the arena exactly when some row is full. */
  lemma SweepChangesIffFull(a: Arena)
    requires Shaped(a)
    ensures Swept(a) == a <==> forall r :: 0 <= r < |a| ==> !Full(a[r])
  {
    if forall r :: 0 <= r < |a| ==> !Full(a[r]) {
      KeptAllWhenNoneFull(a);
      assert Swept(a) == [] + a;
    } else {
      var r :| 0 <= r < |a| && Full(a[r]);
      SweptShape(a);
      assert !Full(Swept(a)[r]);
      assert Swept(a)[r] != a[r];
    }
  }

  /** Sweeping twice is sweeping once. */
  lemma SweepIdempotent(a: Arena)
    requires Shaped(a)
    ensures Swept(Swept(a)) == Swept(a)
  {
    SweptShape(a);
    SweepChangesIffFull(Swept(a));
  }

  /** Splitting an arena at row k splits its kept rows and its full-row count. */
  lemma SplitAtRow(a: Arena, k: int)
    requires 0 <= k < |a|
    ensures Kept(a) == Kept(a[..k]) + (Kept([a[k]]) + Kept(a[k + 1..]))
    ensures FullCount(a) == FullCount(a[..k]) + FullCount([a[k]]) + FullCount(a[k + 1..])
  {
    var below, above := a[..k], a[k + 1..];
    var rest := [a[k]] + above;
    assert a == below + rest;
    KeptAppend(below, rest);
    FullCountAppend(below, rest);
    KeptAppend([a[k]], above);
    FullCountAppend([a[k]], above);
  }

  /** A lone full row is dropped and counted once. */
  lemma LoneFullRow(row: seq<Square>)
    requires Full(row)
    ensures Kept([row]) == [] && FullCount([row]) == 1
  {
    assert [row][1..] == [];
  }

  /** Rows below k that are not full are kept as they are and count no full row. */
  lemma KeptPrefixWhenNoneFull(a: Arena, k: int)
    requires 0 <= k <= |a| && forall r :: 0 <= r < k ==> !Full(a[r])
    ensures Kept(a[..k]) == a[..k] && FullCount(a[..k]) == 0
  {
    var below := a[..k];
    forall r | 0 <= r < |below| ensures !Full(below[r]) {
      assert below[r] == a[r];
    }
    KeptAllWhenNoneFull(below);
  }

  /** Rows above k that are not full are kept as they are and count no full row. */
  lemma KeptSuffixWhenNoneFull(a: Arena, k: int)
    requires 0 <= k < |a| && forall r :: k < r < |a| ==> !Full(a[r])
    ensures Kept(a[k + 1..]) == a[k + 1..] && FullCount(a[k + 1..]) == 0
  {
    var above := a[k + 1..];
    forall r | 0 <= r < |above| ensures !Full(above[r]) {
      assert above[r] == a[k + 1 + r];
    }
    KeptAllWhenNoneFull(above);
  }

  /** With a single full row at index k, the sweep keeps every other row and counts one. */
  lemma KeptOneRow(a: Arena, k: int)
    requires 0 <= k < |a| && Full(a[k])
    requires forall r :: 0 <= r < k ==> !Full(a[r])
    requires forall r :: k < r < |a| ==> !Full(a[r])
    ensures FullCount(a) == 1
    ensures Kept(a) == a[..k] + a[k + 1..]
  {
    LoneFullRow(a[k]);
    KeptPrefixWhenNoneFull(a, k);
    KeptSuffixWhenNoneFull(a, k);
    KeptAround(a, k);
  }

  /** When row k alone is dropped and the rows around it are kept whole, the kept rows of
      the arena are the rows around k. */
  lemma KeptAround(a: Arena, k: int)
    requires 0 <= k < |a|
    requires Kept(a[..k]) == a[..k] && FullCount(a[..k]) == 0
    requires Kept([a[k]]) == [] && FullCount([a[k]]) == 1
    requires Kept(a[k + 1..]) == a[k + 1..] && FullCount(a[k + 1..]) == 0
    ensures FullCount(a) == 1 && Kept(a) == a[..k] + a[k + 1..]
  {
    SplitAtRow(a, k);
    assert [] + a[k + 1..] == a[k + 1..];
  }

  /** A single full row at index k is removed and the rows above it move down by one. */
  lemma SweepOneRow(a: Arena, k: int)
    requires Shaped(a) && 0 <= k < |a| && Full(a[k])
    requires forall r :: 0 <= r < |a| && r != k ==> !Full(a[r])
    ensures FullCount(a) == 1
    ensures Swept(a) == [BlankRow(COLS)] + (a[..k] + a[k + 1..])
  {
    KeptOneRow(a, k);
    assert Blanks(1) == [BlankRow(COLS)];
  }

  /** An arena in the middle of a sweep of a: the examined rows a[i..] have been reduced to
      Kept(a[i..]) at the bottom, under the unexamined rows and k new empty rows. */
  ghost function Sweeping(a: Arena, i: nat, k: nat): Arena
    requires i <= |a|
  {
    Blanks(k) + a[..i] + Kept(a[i..])
  }

  /** Before the sweep nothing has been examined; once everything has, with k the number of
      full rows, the arena is the swept one. */
  lemma SweepingEnds(a: Arena)
    ensures Sweeping(a, |a|, 0) == a && FullCount(a[|a|..]) == 0
    ensures Sweeping(a, 0, FullCount(a)) == Swept(a)
  {
    assert a[..|a|] == a && a[|a|..] == [] && Blanks(0) == [];
    assert a[..0] == [] && a[0..] == a;
  }

  /** Where row y of an arena in the middle of a sweep comes from. */
  lemma SweepingRows(a: Arena, i: nat, k: nat, y: int)
    requires Shaped(a) && i <= |a| && 0 <= y < k + i
    ensures |Sweeping(a, i, k)| == k + i + |Kept(a[i..])| && |Sweeping(a, i, k)[y]| == COLS
    ensures y < k ==> Sweeping(a, i, k)[y] == BlankRow(COLS) && !Full(Sweeping(a, i, k)[y])
    ensures y >= k ==> Sweeping(a, i, k)[y] == a[y - k]
  {
    if y < k {
      BlankNotFull(COLS);
    }
  }

  /** A sweep step past row y, which is not full: when y is the last row examined, a[i - 1],
      only the split between examined and unexamined rows moves. */
  lemma SweepPastRow(a: Arena, i: nat, k: nat, y: int)
    requires Shaped(a) && i <= |a| && 0 <= y < k + i && (i > 0 ==> y + 1 == k + i)
    requires y < |Sweeping(a, i, k)| && !Full(Sweeping(a, i, k)[y])
    ensures i > 0 ==> Sweeping(a, i, k) == Sweeping(a, i - 1, k) && FullCount(a[i - 1..]) == FullCount(a[i..])
  {
    if i > 0 {
      SweepingRows(a, i, k, y);
      assert a[i - 1..] == [a[i - 1]] + a[i..];
      assert a[..i] == a[..i - 1] + [a[i - 1]];
    }
  }

  /** A sweep step that removes full row y, which can only be a[i - 1], the last row
      examined, and puts an empty row on top. */
  lemma SweepRemoveRow(a: Arena, i: nat, k: nat, y: int)
    requires Shaped(a) && i <= |a| && 0 <= y < k + i && (i > 0 ==> y + 1 == k + i)
    requires y < |Sweeping(a, i, k)| && Full(Sweeping(a, i, k)[y])
    ensures 0 < i && y == k + i - 1
    ensures var b := Sweeping(a, i, k);
      [BlankRow(|b[y]|)] + b[..y] + b[y + 1..] == Sweeping(a, i - 1, k + 1)
    ensures FullCount(a[i - 1..]) == FullCount(a[i..]) + 1
  {
    SweepingRows(a, i, k, y);
    var b := Sweeping(a, i, k);
    assert a[i - 1..] == [a[i - 1]] + a[i..];
    assert a[..i] == a[..i - 1] + [a[i - 1]];
    assert b[..y] == Blanks(k) + a[..i - 1];
    assert b[y + 1..] == Kept(a[i..]);
    assert Blanks(k + 1) == [BlankRow(COLS)] + Blanks(k);
  }

  // ---------------------------------------------------------------- drops and kicks

  /** A tight piece that does not collide lies above the bottom of the arena. */
  lemma AboveFloor(a: Arena, m: seq<seq<Block>>, p: Pos)
    requires Tight(m) && !Collides(a, m, p)
    ensures p.y < |a|
  {
    CollidesSpec(a, m, p);
    assert RowOccupied(m, 0);
    var j :| 0 <= j < |m[0]| && m[0][j] != Empty;
    assert !Blocked(a, p.y, p.x + j);
  }

  /** The first row at or below p.y where the piece collides: where the hard-drop loop stops. */
  ghost function FirstHit(a: Arena, m: seq<seq<Block>>, p: Pos): (y: int)
    requires Tight(m)
    ensures y >= p.y && Collides(a, m, Pos(p.x, y))
    ensures forall k :: p.y <= k < y ==> !Collides(a, m, Pos(p.x, k))
    decreases |a| - p.y
  {
    if Collides(a, m, p) then p.y
    else AboveFloor(a, m, p); FirstHit(a, m, Pos(p.x, p.y + 1))
  }

  /** The horizontal offsets that playerRotate tries, in order. */
  const KICKS: seq<int> := [0, -1, 1, 2]

  /** The index of the first offset, from index i on, at which the piece fits; |offsets| if none. */
  ghost function FirstFit(a: Arena, m: seq<seq<Block>>, p: Pos, offsets: seq<int>, i: nat): (k: nat)
    requires i <= |offsets|
    ensures i <= k <= |offsets|
    ensures k < |offsets| ==> !Collides(a, m, Pos(p.x + offsets[k], p.y))
    ensures forall t :: i <= t < k ==> Collides(a, m, Pos(p.x + offsets[t], p.y))
    decreases |offsets| - i
  {
    if i == |offsets| then i
    else if !Collides(a, m, Pos(p.x + offsets[i], p.y)) then i
    else FirstFit(a, m, p, offsets, i + 1)
  }

  /** The kick search over 0, -1, +1, +2 spelled out: the index of the first offset that fits,
      4 when none does. */
  lemma FirstFitOfKicks(a: Arena, m: seq<seq<Block>>, p: Pos)
    ensures FirstFit(a, m, p, KICKS, 0) ==
      if !Collides(a, m, p) then 0
      else if !Collides(a, m, Pos(p.x - 1, p.y)) then 1
      else if !Collides(a, m, Pos(p.x + 1, p.y)) then 2
      else if !Collides(a, m, Pos(p.x + 2, p.y)) then 3
      else 4
  {
    assert KICKS[0] == 0 && KICKS[1] == -1 && KICKS[2] == 1 && KICKS[3] == 2 && |KICKS| == 4;
    assert Pos(p.x + 0, p.y) == p;
  }

  /** The position playerRotate settles on for a turned matrix: the first of the offsets
      0, -1, +1, +2 columns at which it fits, or None when it fits at none. */
  function KickTarget(a: Arena, m: seq<seq<Block>>, p: Pos): (r: Option<Pos>)
    ensures r.Some? ==> !Collides(a, m, r.value) && r.value.y == p.y
    ensures r.None? <==> (Collides(a, m, p) && Collides(a, m, Pos(p.x - 1, p.y)) &&
      Collides(a, m, Pos(p.x + 1, p.y)) && Collides(a, m, Pos(p.x + 2, p.y)))
  {
    if !Collides(a, m, p) then Some(p)
    else if !Collides(a, m, Pos(p.x - 1, p.y)) then Some(Pos(p.x - 1, p.y))
    else if !Collides(a, m, Pos(p.x + 1, p.y)) then Some(Pos(p.x + 1, p.y))
    else if !Collides(a, m, Pos(p.x + 2, p.y)) then Some(Pos(p.x + 2, p.y))
    else None
  }

  /** The kick chain is the first-fit search over KICKS. */
  lemma KickTargetIsFirstFit(a: Arena, m: seq<seq<Block>>, p: Pos)
    ensures var k := FirstFit(a, m, p, KICKS, 0);
      KickTarget(a, m, p) == if k < |KICKS| then Some(Pos(p.x + KICKS[k], p.y)) else None
  {
    FirstFitOfKicks(a, m, p);
  }
}
