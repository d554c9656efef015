/** The game state of script.js (the arena, the falling piece, the counters and the flags)
    and the operations that the keyboard and the gravity tick drive. */
module Game {
  import opened Pieces
  import opened Board
  import opened Scoring

  /** The keys the keydown handler reacts to; every other key is Other. */
  datatype Key = ArrowLeft | ArrowRight | ArrowDown | ArrowUp | Space | LetterP | Other

  /** playerReset's offset for a new piece: row 0, centred by integer halves, so the margin
      left of the piece equals the margin right of it or exceeds it by one column. */
  function SpawnPos(m: seq<seq<Block>>): (p: Pos)
    requires |m| > 0
    ensures p.y == 0
    ensures var right := COLS - (p.x + |m[0]|); p.x == right || p.x == right + 1
  {
    Pos(COLS / 2 - |m[0]| / 2, 0)
  }

  /** A new piece starts inside the arena. */
  lemma SpawnPosInBounds(k: Kind)
    ensures var m := CreatePiece(k);
      Tight(m) && 0 <= SpawnPos(m).x && SpawnPos(m).x + |m[0]| <= COLS && |m| <= ROWS
  {
    PieceIsTetromino(k);
  }

  /** On an empty arena a new piece never collides, so a fresh game is not over. */
  lemma SpawnFitsEmptyArena(a: Arena, k: Kind)
    requires Shaped(a) && forall r, c :: 0 <= r < |a| && 0 <= c < |a[r]| ==> a[r][c] == Free
    ensures !Collides(a, CreatePiece(k), SpawnPos(CreatePiece(k)))
  {
    SpawnPosInBounds(k);
    var m := CreatePiece(k);
    var p := SpawnPos(m);
    CollidesSpec(a, m, p);
    forall i, j | 0 <= i < |m| && 0 <= j < |m[i]| && m[i][j] != Empty
      ensures !Blocked(a, p.y + i, p.x + j)
    {
    }
  }

  class Game {
    var arena: Arena
    var matrix: seq<seq<Block>>
    var pos: Pos
    var kind: Kind
    var rotation: int
    var next: Option<Kind>
    var score: int
    var level: int
    var lines: nat
    var dropInterval: int
    var gameOver: bool
    var paused: bool
    var started: bool

    /** The arena keeps its shape, the counters never go negative and the level is the one
        the cleared lines earn; once above level 1 the interval is the level's. */
    ghost predicate Settled()
      reads this
    {
      Shaped(arena) && 0 <= score && level == LevelFor(lines) &&
      (level > 1 ==> dropInterval == DropInterval(level))
    }

    /** The falling piece is a tight shape whose columns lie inside the arena and whose rows
        do not reach below it. Its top may lie above the arena only after merge has thrown. */
    ghost predicate Valid()
      reads this
    {
      Settled() && Tight(matrix) &&
      0 <= pos.x && pos.x + |matrix[0]| <= COLS && pos.y + |matrix| <= ROWS
    }

    /** Everything but the piece's offset is as it was. */
    twostate predicate OnlyPosChanged()
      reads this
    {
      arena == old(arena) && matrix == old(matrix) && kind == old(kind) && rotation == old(rotation) &&
      next == old(next) && score == old(score) && level == old(level) && lines == old(lines) &&
      dropInterval == old(dropInterval) && gameOver == old(gameOver) && paused == old(paused) &&
      started == old(started)
    }

    /** What a lock leaves when merge throws (the piece at offset `at` sticks out above the
        arena): nothing changes but the offset and the score, which stay where the drop put
        them. */
    twostate predicate Stuck(at: Pos, score0: int)
      reads this
    {
      arena == old(arena) && matrix == old(matrix) && pos == at && kind == old(kind) &&
      rotation == old(rotation) && next == old(next) && score == score0 && level == old(level) &&
      lines == old(lines) && dropInterval == old(dropInterval) && gameOver == old(gameOver) &&
      paused == old(paused) && started == old(started)
    }

    /** What a lock leaves when the piece at offset `at` merges (with the score at `score0`,
        after any hard-drop bonus). */
    twostate predicate Locked(at: Pos, score0: int, first: Kind, upcoming: Kind)
      reads this
    {
      Settles(Merged(old(arena), old(matrix), at, Color(old(kind))), score0, first, upcoming)
    }

    /** What playerReset and then arenaSweep leave on the board `merged`: the spawn check
        sees the board before the sweep. */
    twostate predicate Settles(merged: Arena, score0: int, first: Kind, upcoming: Kind)
      reads this
    {
      var k := if old(next).Some? then old(next).value else first;
      var spawned := CreatePiece(k);
      var start := SpawnPos(spawned);
      var blocked := Collides(merged, spawned, start);
      var n := FullCount(merged);
      arena == Swept(merged) && matrix == spawned && kind == k && rotation == 0 && pos == start &&
      next == Some(upcoming) &&
      gameOver == (old(gameOver) || blocked) && started == (old(started) && !blocked) &&
      paused == old(paused) &&
      score == score0 + 100 * n + n * n * 100 && lines == old(lines) + n &&
      (if n > 0 && LevelFor(lines) > old(level)
       then level == LevelFor(lines) && dropInterval == DropInterval(level)
       else level == old(level) && dropInterval == old(dropInterval))
    }

    /** The outcome of a lock at offset `at`: merge throws exactly when the piece's top row
        lies above the arena. */
    twostate predicate LockOutcome(at: Pos, score0: int, first: Kind, upcoming: Kind, threw: bool)
      reads this
    {
      threw == (at.y < 0) &&
      (threw ==> Stuck(at, score0)) &&
      (!threw ==> Locked(at, score0, first, upcoming))
    }

    /** playerMove's outcome: the piece shifts dir columns when it fits there and otherwise
        stays; nothing else changes. */
    twostate predicate Moved(dir: int)
      reads this
    {
      var shifted := Pos(old(pos).x + dir, old(pos).y);
      pos == (if Collides(old(arena), old(matrix), shifted) then old(pos) else shifted) && OnlyPosChanged()
    }

    /** playerRotate's outcome: an O piece stays; any other piece is turned and takes the kick
        position, or keeps its matrix and offset when no kick fits. Only the matrix and the
        offset can change. */
    twostate predicate TurnedOrKept()
      reads this
    {
      arena == old(arena) && kind == old(kind) && rotation == old(rotation) && next == old(next) &&
      score == old(score) && level == old(level) && lines == old(lines) &&
      dropInterval == old(dropInterval) && gameOver == old(gameOver) && paused == old(paused) &&
      started == old(started) && Rect(old(matrix)) &&
      if old(kind) == O then matrix == old(matrix) && pos == old(pos)
      else match KickTarget(old(arena), Rotated(old(matrix)), old(pos))
        case Some(q) => matrix == Rotated(old(matrix)) && pos == q
        case None => matrix == old(matrix) && pos == old(pos)
    }

    /** playerDrop's outcome: down a row when the piece fits there, otherwise a lock where it is. */
    twostate predicate Dropped(first: Kind, upcoming: Kind, threw: bool)
      reads this
    {
      var below := Pos(old(pos).x, old(pos).y + 1);
      if Collides(old(arena), old(matrix), below) then LockOutcome(old(pos), old(score), first, upcoming, threw)
      else pos == below && OnlyPosChanged() && !threw
    }

    /** playerHardDrop's outcome: a lock one row above the first colliding row, with 2 points
        for every step of the loop, the colliding one included. */
    twostate predicate HardDropped(first: Kind, upcoming: Kind, threw: bool)
      reads this
    {
      Tight(old(matrix)) &&
      var hit := FirstHit(old(arena), old(matrix), old(pos));
      LockOutcome(Pos(old(pos).x, hit - 1), old(score) + 2 * (hit - old(pos).y), first, upcoming, threw)
    }

    /** The P key's outcome: the pause flag flips and nothing else changes. */
    twostate predicate PauseToggled()
      reads this
    {
      paused == !old(paused) &&
      arena == old(arena) && matrix == old(matrix) && pos == old(pos) && kind == old(kind) &&
      rotation == old(rotation) && next == old(next) && score == old(score) && level == old(level) &&
      lines == old(lines) && dropInterval == old(dropInterval) && gameOver == old(gameOver) &&
      started == old(started)
    }

    /** startGame: an empty arena, zeroed counters at level 1, no preview yet, then playerReset.
        The initial interval comes from calculateDropInterval, which is a parameter here. */
    constructor Start(initialInterval: int, first: Kind, upcoming: Kind)
      ensures Valid()
      ensures forall r, c :: 0 <= r < |arena| && 0 <= c < |arena[r]| ==> arena[r][c] == Free
      ensures kind == first && matrix == CreatePiece(first) && pos == SpawnPos(matrix) && rotation == 0
      ensures next == Some(upcoming)
      ensures score == 0 && level == 1 && lines == 0 && dropInterval == initialInterval
      ensures !gameOver && !paused && started
    {
      var empty := CreateMatrix(COLS, ROWS);
      arena := empty;
      // The player has no piece until playerReset below gives it one.
      matrix := [];
      pos := Pos(0, 0);
      kind := first;
      rotation := 0;
      next := None;
      score := 0;
      level := 1;
      lines := 0;
      dropInterval := initialInterval;
      gameOver := false;
      paused := false;
      started := true;
      new;
      SpawnFitsEmptyArena(arena, first);
      Spawn(first, upcoming);
    }

    /** endGame, up to its first await: the game is over and no longer running. */
    method EndGame()
      modifies this`gameOver, this`started
      ensures gameOver && !started
    {
      gameOver := true;
      started := false;
    }

    /** playerReset: the preview piece (drawn now if there is none yet) becomes the player's
        piece at the top centre, a new preview is drawn, and the game ends if the new piece
        collides at once. */
    method Spawn(first: Kind, upcoming: Kind)
      requires Settled()
      modifies this`matrix, this`kind, this`rotation, this`pos, this`next, this`gameOver, this`started
      ensures Valid()
      ensures kind == (if old(next).Some? then old(next).value else first)
      ensures matrix == CreatePiece(kind) && rotation == 0 && pos == SpawnPos(matrix)
      ensures next == Some(upcoming)
      ensures gameOver == (old(gameOver) || Collides(arena, matrix, pos))
      ensures started == (old(started) && !Collides(arena, matrix, pos))
    {
      if next.None? {
        next := Some(first);
      }
      var k := next.value;
      SpawnPosInBounds(k);
      matrix := CreatePiece(k);
      kind := k;
      rotation := 0;
      pos := Pos(COLS / 2 - |matrix[0]| / 2, 0);
      next := Some(upcoming);
      if Collides(arena, matrix, pos) {
        EndGame();
      }
    }

    /** playerMove: shift the piece dir columns if it fits there, otherwise leave it. */
    method Move(dir: int)
      requires Valid()
      modifies this`pos
      ensures Valid()
      ensures Moved(dir)
    {
      var shifted := Pos(pos.x + dir, pos.y);
      if !Collides(arena, matrix, shifted) {
        ClearPlacementInBounds(arena, matrix, shifted);
        pos := shifted;
      }
    }

    /** playerRotate: the O piece stays; any other piece turns a quarter clockwise and takes the
        first offset of 0, -1, +1, +2 columns where it fits, or turns back if none fits. */
    method RotatePiece()
      requires Valid()
      modifies this`matrix, this`pos
      ensures Valid()
      ensures TurnedOrKept()
      ensures matrix != old(matrix) || pos != old(pos) ==> !Collides(arena, matrix, pos)
    {
      if kind == O {
        return;
      }
      RotatedTight(matrix);
      var turned := Rotate(matrix);
      // The tentative offsets 0, -1, +1, +2 are tried in order; when none fits the original
      // matrix and offset stay.
      match KickTarget(arena, turned, pos)
      case Some(q) =>
        ClearPlacementInBounds(arena, turned, q);
        matrix := turned;
        pos := q;
      case None =>
    }

    /** merge: paint the piece's colour under each of its blocks. When the piece's top row lies
        above the arena, arena[pos.y] is undefined and the first write throws before anything
        is painted (row 0 of a tight piece holds a block); ok is false then. */
    method Merge() returns (ok: bool)
      requires Valid()
      modifies this`arena
      ensures Valid()
      ensures ok == (pos.y >= 0)
      ensures arena == if ok then Merged(old(arena), matrix, pos, Color(kind)) else old(arena)
    {
      if pos.y < 0 {
        return false;
      }
      ghost var a0 := arena;
      var colour := Color(kind);
      var i := 0;
      while i < |matrix|
        invariant 0 <= i <= |matrix| && Valid()
        invariant |arena| == |a0| && forall r :: 0 <= r < |a0| ==> |arena[r]| == |a0[r]|
        invariant forall r, c :: 0 <= r < |a0| && 0 <= c < |a0[r]| ==>
          arena[r][c] == if Covers(matrix, pos, r, c) && r - pos.y < i then Painted(colour) else a0[r][c]
      {
        PaintRow(i, colour);
        i := i + 1;
      }
      ok := true;
      forall r | 0 <= r < |a0| ensures arena[r] == Merged(a0, matrix, pos, colour)[r] {
        forall c | 0 <= c < |a0[r]| ensures arena[r][c] == Merged(a0, matrix, pos, colour)[r][c] {
          MergedAt(a0, matrix, pos, colour, r, c);
        }
      }
    }

    /** One row of merge: paint the colour under each block of piece row i. */
    method PaintRow(i: int, colour: string)
      requires Valid() && 0 <= pos.y && 0 <= i < |matrix|
      modifies this`arena
      ensures Valid()
      ensures |arena| == |old(arena)| && forall r :: 0 <= r < |arena| ==> |arena[r]| == |old(arena)[r]|
      ensures forall r, c :: 0 <= r < |arena| && 0 <= c < |arena[r]| ==>
        arena[r][c] == if r == pos.y + i && Covers(matrix, pos, r, c) then Painted(colour) else old(arena)[r][c]
    {
      var j := 0;
      while j < |matrix[i]|
        invariant 0 <= j <= |matrix[i]| && Valid()
        invariant |arena| == |old(arena)| && forall r :: 0 <= r < |arena| ==> |arena[r]| == |old(arena)[r]|
        invariant forall r, c :: 0 <= r < |arena| && 0 <= c < |arena[r]| ==>
          arena[r][c] == if r == pos.y + i && Covers(matrix, pos, r, c) && c - pos.x < j
                         then Painted(colour) else old(arena)[r][c]
      {
        if matrix[i][j] != Empty {
          var r, c := pos.y + i, pos.x + j;
          arena := arena[r := arena[r][c := Painted(colour)]];
        }
        j := j + 1;
      }
    }

    /** The row loop of arenaSweep: from the bottom row up, remove each full row, push an
        empty row on top and look at the same index again, adding 100 points per row. */
    method ClearFullRows() returns (rowCount: nat)
      requires Shaped(arena)
      modifies this`arena, this`score
      ensures rowCount == FullCount(old(arena))
      ensures arena == Swept(old(arena)) && score == old(score) + 100 * rowCount
    {
      ghost var a0 := arena;
      SweepingEnds(a0);
      rowCount := 0;
      var y := |arena| - 1;
      // The rows a0[i..] have been examined; once i is 0, y walks through the new empty rows.
      ghost var i := |a0|;
      while y >= 0
        invariant 0 <= i <= |a0| && -1 <= y
        invariant arena == Sweeping(a0, i, rowCount)
        invariant rowCount == FullCount(a0[i..])
        invariant i <= y + 1 <= rowCount + i
        invariant i > 0 ==> y + 1 == rowCount + i
        invariant score == old(score) + 100 * rowCount
        decreases y + 1 + i
      {
        SweepingRows(a0, i, rowCount, y);
        var full := IsFull(arena[y]);
        if !full {
          // a square is 0: continue with the row above
          SweepPastRow(a0, i, rowCount, y);
          if i > 0 {
            i := i - 1;
          }
          y := y - 1;
        } else {
          SweepRemoveRow(a0, i, rowCount, y);
          RemoveRow(y);
          i := i - 1;
          rowCount := rowCount + 1;
          score := score + 100;
        }
      }
    }

    /** arenaSweep's splice and unshift: row y is taken out, filled with 0 and put back on top. */
    method RemoveRow(y: int)
      requires 0 <= y < |arena|
      modifies this`arena
      ensures arena == [BlankRow(|old(arena)[y]|)] + old(arena)[..y] + old(arena)[y + 1..]
    {
      arena := [BlankRow(|arena[y]|)] + arena[..y] + arena[y + 1..];
    }

    /** arenaSweep: clear the full rows; then 100 n^2 more points for n rows, n more lines and
        a level-up when the new line total earns a higher level. */
    method Sweep()
      requires Valid()
      modifies this`arena, this`score, this`lines, this`level, this`dropInterval
      ensures Valid()
      ensures var n := FullCount(old(arena));
        arena == Swept(old(arena)) && score == old(score) + 100 * n + n * n * 100 &&
        lines == old(lines) + n &&
        if n > 0 && LevelFor(lines) > old(level)
        then level == LevelFor(lines) && dropInterval == DropInterval(level)
        else level == old(level) && dropInterval == old(dropInterval)
    {
      SweptShape(arena);
      var rowCount := ClearFullRows();
      if rowCount > 0 {
        LevelUpRule(lines, rowCount, level);
        lines := lines + rowCount;
        score := score + rowCount * rowCount * 100;
        var newLevel := LevelFor(lines);
        if newLevel > level {
          level := newLevel;
          dropInterval := DropInterval(level);
        }
      }
    }

    /** After merge: playerReset, then arenaSweep, in the source's order. */
    method Settle(first: Kind, upcoming: Kind)
      requires Valid()
      modifies this
      ensures Settles(old(arena), old(score), first, upcoming)
      ensures Valid()
    {
      ghost var k := if next.Some? then next.value else first;
      Spawn(first, upcoming);
      assert kind == k && arena == old(arena);
      ghost var n := FullCount(arena);
      Sweep();
      assert arena == Swept(old(arena)) && lines == old(lines) + n;
    }

    /** The piece locks where it is: merge, then playerReset and arenaSweep. */
    method Lock(first: Kind, upcoming: Kind) returns (threw: bool)
      requires Valid()
      modifies this
      ensures threw == (old(pos).y < 0)
      ensures threw ==> unchanged(this)
      ensures !threw ==> Locked(old(pos), old(score), first, upcoming)
      ensures Valid()
    {
      ghost var merged := Merged(arena, matrix, pos, Color(kind));
      var ok := Merge();
      if !ok {
        return true;
      }
      threw := false;
      assert arena == merged;
      Settle(first, upcoming);
    }

    /** playerDrop: move down a row if the piece fits there, otherwise lock it where it is. */
    method Drop(first: Kind, upcoming: Kind) returns (threw: bool)
      requires Valid()
      modifies this
      ensures Valid()
      ensures Dropped(first, upcoming, threw)
    {
      var below := Pos(pos.x, pos.y + 1);
      if Collides(arena, matrix, below) {
        threw := Lock(first, upcoming);
      } else {
        ClearPlacementInBounds(arena, matrix, below);
        pos := below;
        threw := false;
      }
    }

    /** The loop of playerHardDrop: while the piece fits, move it down a row and add 2 points
        (the step that ends in a collision scores too); then back up a row. */
    method Fall()
      requires Valid()
      modifies this`pos, this`score
      ensures Valid()
      ensures var hit := FirstHit(arena, matrix, old(pos));
        pos == Pos(old(pos).x, hit - 1) && score == old(score) + 2 * (hit - old(pos).y)
    {
      while !Collides(arena, matrix, pos)
        invariant Settled() && Tight(matrix)
        invariant pos.x == old(pos).x && old(pos).y <= pos.y && pos.y - 1 + |matrix| <= ROWS
        invariant FirstHit(arena, matrix, pos) == FirstHit(old(arena), old(matrix), old(pos))
        invariant score == old(score) + 2 * (pos.y - old(pos).y)
        decreases ROWS - pos.y
      {
        AboveFloor(arena, matrix, pos);
        ClearPlacementInBounds(arena, matrix, pos);
        pos := Pos(pos.x, pos.y + 1);
        score := score + 2;
      }
      assert pos.y == FirstHit(arena, matrix, pos);
      pos := Pos(pos.x, pos.y - 1);
    }

    /** playerHardDrop: fall as far as the piece fits, then lock. */
    method HardDrop(first: Kind, upcoming: Kind) returns (threw: bool)
      requires Valid()
      modifies this
      ensures HardDropped(first, upcoming, threw)
      ensures Valid()
    {
      Fall();
      threw := Lock(first, upcoming);
    }

    /** The keydown handler: nothing unless the game is running and not over; the arrows move,
        soft-drop and rotate, space hard-drops, P toggles the pause flag (which the handler
        itself does not consult). */
    method Press(key: Key, first: Kind, upcoming: Kind) returns (threw: bool)
      requires Valid()
      modifies this
      ensures Valid()
      ensures !old(started) || old(gameOver) ==> unchanged(this) && !threw
      ensures old(started) && !old(gameOver) ==>
        match key
        case ArrowLeft => Moved(-1) && !threw
        case ArrowRight => Moved(1) && !threw
        case ArrowDown => Dropped(first, upcoming, threw)
        case ArrowUp => TurnedOrKept() && !threw
        case Space => HardDropped(first, upcoming, threw)
        case LetterP => PauseToggled() && !threw
        case Other => unchanged(this) && !threw
    {
      threw := false;
      if !started || gameOver {
        return;
      }
      match key
      case ArrowLeft => Move(-1);
      case ArrowRight => Move(1);
      case ArrowDown => threw := Drop(first, upcoming);
      case ArrowUp => RotatePiece();
      case Space => threw := HardDrop(first, upcoming);
      case LetterP => paused := !paused;
      case Other =>
    }
  }
}
