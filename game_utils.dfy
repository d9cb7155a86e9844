/** Grid geometry and the piece catalog of the Tetris game (src/utils/game.js).

    A board and a shape are both matrices of integers stored row by row:
    `m[row][col]`.  In a board 0 is an empty cell and a nonzero value is a
    settled block; in a shape 1 marks an occupied cell of the piece's bounding
    box.  None of the operations here change their inputs: they are values. */
module GameUtils {

  type Matrix = seq<seq<int>>

  /** Offset of a shape's bounding box on the board: column x, row y (row 0 is the top). */
  datatype Position = Position(x: int, y: int)

  /** A tetromino: its type identifier and its current shape. */
  datatype Piece = Piece(kind: int, shape: Matrix)

  // ---------------------------------------------------------------------------
  // The piece catalog

  const TypeI: int := 1
  const TypeO: int := 2
  const TypeT: int := 3
  const TypeL: int := 4
  const TypeJ: int := 5
  const TypeS: int := 6
  const TypeZ: int := 7

  /** The seven pieces in catalog order. */
  const Shapes: seq<Piece> := [
    Piece(TypeI, [[1, 1, 1, 1]]),
    Piece(TypeO, [[1, 1], [1, 1]]),
    Piece(TypeT, [[1, 1, 1], [0, 1, 0]]),
    Piece(TypeL, [[1, 1, 1], [1, 0, 0]]),
    Piece(TypeJ, [[1, 1, 1], [0, 0, 1]]),
    Piece(TypeS, [[1, 1, 0], [0, 1, 1]]),
    Piece(TypeZ, [[0, 1, 1], [1, 1, 0]])
  ]

  /** Number of columns of a matrix, read off its first row as the source does. */
  function Width(m: Matrix): nat {
    if |m| == 0 then 0 else |m[0]|
  }

  /** Every row has the width of the first. */
  predicate IsRect(m: Matrix) {
    forall i :: 0 <= i < |m| ==> |m[i]| == Width(m)
  }

  /** A well-formed shape: a non-empty rectangular matrix of 0/1 flags. */
  predicate IsShape(s: Matrix) {
    && |s| > 0 && Width(s) > 0 && IsRect(s)
    && forall i, j :: 0 <= i < |s| && 0 <= j < |s[i]| ==> s[i][j] == 0 || s[i][j] == 1
  }

  /** Picks the catalog entry that the random draw `draw` (the source's
      `Math.floor(Math.random() * 7)`) selects. */
  function GetRandomShape(draw: nat): (p: Piece)
    requires draw < |Shapes|
    ensures p in Shapes
    ensures p.kind == draw + 1 && 1 <= p.kind <= 7
    ensures IsShape(p.shape) && 1 <= |p.shape| <= 2 && 2 <= Width(p.shape) <= 4
  {
    Piece(Shapes[draw].kind, Shapes[draw].shape)
  }

  // ---------------------------------------------------------------------------
  // Collision

  /** Cell (r, c) of the shape exists and is occupied. */
  predicate Occupied(shape: Matrix, r: int, c: int) {
    0 <= r < |shape| && 0 <= c < |shape[r]| && shape[r][c] != 0
  }

  /** A shape cell landing on board cell (row, col) collides: it is left of,
      right of or below the board, or it is on the board over a filled cell.
      A row above the board (row < 0) is checked against the side walls only. */
  predicate Blocked(board: Matrix, row: int, col: int)
    requires IsRect(board)
  {
    col < 0 || col >= Width(board) || row >= |board| || (row >= 0 && board[row][col] != 0)
  }

  /** Some occupied cell of `shape`, placed at `position`, collides. */
  ghost predicate Collides(board: Matrix, shape: Matrix, position: Position)
    requires IsRect(board)
  {
    exists r, c :: Occupied(shape, r, c) && Blocked(board, position.y + r, position.x + c)
  }

  /** checkCollision: scans the shape row by row and stops at the first
      occupied cell that collides. */
  method CheckCollision(board: Matrix, shape: Matrix, position: Position) returns (hit: bool)
    requires IsRect(board) && |board| > 0
    requires IsRect(shape) && |shape| > 0
    ensures hit <==> Collides(board, shape, position)
  {
    var rows := |shape|;
    var cols := |shape[0]|;
    var row := 0;
    while row < rows
      invariant 0 <= row <= rows
      invariant forall r, c :: 0 <= r < row && Occupied(shape, r, c) ==> !Blocked(board, position.y + r, position.x + c)
    {
      var col := 0;
      while col < cols
        invariant 0 <= col <= cols
        invariant forall r, c :: 0 <= r < row && Occupied(shape, r, c) ==> !Blocked(board, position.y + r, position.x + c)
        invariant forall c :: 0 <= c < col && Occupied(shape, row, c) ==> !Blocked(board, position.y + row, position.x + c)
      {
        if shape[row][col] != 0 {
          var newRow := position.y + row;
          var newCol := position.x + col;
          if newCol < 0 || newCol >= |board[0]| || newRow >= |board| || (newRow >= 0 && board[newRow][newCol] != 0) {
            assert Occupied(shape, row, col) && Blocked(board, position.y + row, position.x + col);
            return true;
          }
        }
        col := col + 1;
      }
      row := row + 1;
    }
    return false;
  }

  /** A shape lying wholly above the board collides only with the side walls. */
  lemma AboveBoardOnlyWalls(board: Matrix, shape: Matrix, position: Position)
    requires IsRect(board)
    requires forall r, c :: Occupied(shape, r, c) ==> position.y + r < 0
    ensures Collides(board, shape, position) <==>
      exists r, c :: Occupied(shape, r, c) && (position.x + c < 0 || position.x + c >= Width(board))
  {
  }

  // ---------------------------------------------------------------------------
  // Merging a shape into a board

  /** Board cell (i, j) lies under an occupied cell of the shape at `position`. */
  predicate Covers(shape: Matrix, position: Position, i: int, j: int) {
    Occupied(shape, i - position.y, j - position.x)
  }

  /** The board with value `v` written into every cell that the shape covers. */
  function Stamp(board: Matrix, shape: Matrix, position: Position, v: int): (r: Matrix)
    ensures |r| == |board| && forall i :: 0 <= i < |r| ==> |r[i]| == |board[i]|
  {
    seq(|board|, i requires 0 <= i < |board| =>
      seq(|board[i]|, j requires 0 <= j < |board[i]| =>
        if Covers(shape, position, i, j) then v else board[i][j]))
  }

  /** Shape cell (r, c) comes before cell (row, col) in row-major scanning order. */
  predicate Before(r: int, c: int, row: int, col: int) {
    r < row || (r == row && c < col)
  }

  /** mergeShapeToBoard: copies the board and writes 1 into every occupied,
      in-bounds cell of the shape. */
  method MergeShapeToBoard(board: Matrix, shape: Matrix, position: Position) returns (newBoard: Matrix)
    requires IsRect(board)
    ensures |newBoard| == |board| && IsRect(newBoard) && Width(newBoard) == Width(board)
    ensures forall i, j :: 0 <= i < |board| && 0 <= j < |board[i]| ==>
      newBoard[i][j] == if Covers(shape, position, i, j) then 1 else board[i][j]
    ensures newBoard == Stamp(board, shape, position, 1)
  {
    newBoard := board;
    var rowIndex := 0;
    while rowIndex < |shape|
      invariant 0 <= rowIndex <= |shape|
      invariant |newBoard| == |board| && forall i :: 0 <= i < |board| ==> |newBoard[i]| == |board[i]|
      invariant forall i, j :: 0 <= i < |board| && 0 <= j < |board[i]| ==>
        newBoard[i][j] == if Covers(shape, position, i, j) && i - position.y < rowIndex then 1 else board[i][j]
    {
      var colIndex := 0;
      while colIndex < |shape[rowIndex]|
        invariant 0 <= colIndex <= |shape[rowIndex]|
        invariant |newBoard| == |board| && forall i :: 0 <= i < |board| ==> |newBoard[i]| == |board[i]|
        invariant forall i, j :: 0 <= i < |board| && 0 <= j < |board[i]| ==>
          newBoard[i][j] == if Covers(shape, position, i, j) && Before(i - position.y, j - position.x, rowIndex, colIndex) then 1 else board[i][j]
      {
        if shape[rowIndex][colIndex] != 0 {
          var boardRow := position.y + rowIndex;
          var boardCol := position.x + colIndex;
          if boardRow >= 0 && boardRow < |board| && boardCol >= 0 && boardCol < |board[0]| {
            newBoard := newBoard[boardRow := newBoard[boardRow][boardCol := 1]];
          }
        }
        colIndex := colIndex + 1;
      }
      rowIndex := rowIndex + 1;
    }
    StampEq(newBoard, board, shape, position, 1);
  }

  /** A matrix that agrees cell by cell with a stamped board is that board. */
  lemma StampEq(m: Matrix, board: Matrix, shape: Matrix, position: Position, v: int)
    requires |m| == |board| && forall i :: 0 <= i < |board| ==> |m[i]| == |board[i]|
    requires forall i, j :: 0 <= i < |board| && 0 <= j < |board[i]| ==>
      m[i][j] == if Covers(shape, position, i, j) then v else board[i][j]
    ensures m == Stamp(board, shape, position, v)
  {
    var s := Stamp(board, shape, position, v);
    forall i | 0 <= i < |board| ensures m[i] == s[i] {
      assert forall j :: 0 <= j < |board[i]| ==> m[i][j] == s[i][j];
    }
  }

  /** Stamping keeps the board's dimensions, and keeps every cell within
      `lo..hi` when the stamped value is in that range. */
  lemma StampKeepsRange(board: Matrix, shape: Matrix, position: Position, v: int, lo: int, hi: int)
    requires IsRect(board)
    requires forall i, j :: 0 <= i < |board| && 0 <= j < |board[i]| ==> lo <= board[i][j] <= hi
    requires lo <= v <= hi
    ensures var r := Stamp(board, shape, position, v);
      IsRect(r) && Width(r) == Width(board) &&
      forall i, j :: 0 <= i < |r| && 0 <= j < |r[i]| ==> lo <= r[i][j] <= hi
  {
  }

  /** A placement that does not collide lands every occupied cell that is on
      the board on an empty cell, so stamping it only fills empty cells. */
  lemma NoCollisionFillsEmpty(board: Matrix, shape: Matrix, position: Position)
    requires IsRect(board)
    requires !Collides(board, shape, position)
    ensures forall i, j :: 0 <= i < |board| && 0 <= j < |board[i]| && Covers(shape, position, i, j) ==> board[i][j] == 0
    ensures forall r, c :: Occupied(shape, r, c) ==>
      0 <= position.x + c < Width(board) && position.y + r < |board|
  {
  }

  // ---------------------------------------------------------------------------
  // Clearing full lines

  /** A row is full when none of its cells is 0 (an empty row is full). */
  predicate IsFull(row: seq<int>) {
    forall j :: 0 <= j < |row| ==> row[j] != 0
  }

  /** Number of full rows. */
  function CountFull(b: Matrix): nat {
    if b == [] then 0
    else CountFull(b[..|b| - 1]) + (if IsFull(b[|b| - 1]) then 1 else 0)
  }

  /** The rows that are not full, in their original order. */
  function Kept(b: Matrix): Matrix {
    if b == [] then []
    else Kept(b[..|b| - 1]) + (if IsFull(b[|b| - 1]) then [] else [b[|b| - 1]])
  }

  function EmptyRow(w: nat): seq<int> {
    seq(w, _ => 0)
  }

  function EmptyRows(k: nat, w: nat): Matrix {
    seq(k, _ => EmptyRow(w))
  }

  /** The board clearLines returns: one empty row on top for each full row
      removed, then the rows that were kept. */
  function Cleared(b: Matrix): (r: Matrix)
    ensures |r| == |b|
  {
    KeptCountSplit(b);
    EmptyRows(CountFull(b), Width(b)) + Kept(b)
  }

  /** Every row is either kept or counted as cleared. */
  lemma {:induction false} KeptCountSplit(b: Matrix)
    ensures |Kept(b)| + CountFull(b) == |b|
  {
    if b != [] {
      KeptCountSplit(b[..|b| - 1]);
    }
  }

  /** A row is kept exactly when it is a row of the input that is not full. */
  lemma {:induction false} KeptMembers(b: Matrix)
    ensures forall row :: row in Kept(b) <==> row in b && !IsFull(row)
  {
    if b != [] {
      var front := b[..|b| - 1];
      KeptMembers(front);
      assert b == front + [b[|b| - 1]];
    }
  }

  /** clearLines: drops the full rows while counting them, then inserts
      empty rows at the top until the board has its old height. */
  method ClearLines(board: Matrix) returns (newBoard: Matrix, linesCleared: nat)
    ensures linesCleared == CountFull(board)
    ensures newBoard == Cleared(board)
  {
    linesCleared := 0;
    newBoard := [];
    var i := 0;
    while i < |board|
      invariant 0 <= i <= |board|
      invariant linesCleared == CountFull(board[..i])
      invariant newBoard == Kept(board[..i])
    {
      assert board[..i + 1][..i] == board[..i];
      if IsFull(board[i]) {
        linesCleared := linesCleared + 1;
      } else {
        newBoard := newBoard + [board[i]];
      }
      i := i + 1;
    }
    assert board[..|board|] == board;
    KeptCountSplit(board);
    while |newBoard| < |board|
      invariant |Kept(board)| <= |newBoard| <= |board|
      invariant newBoard == EmptyRows(|newBoard| - |Kept(board)|, Width(board)) + Kept(board)
      decreases |board| - |newBoard|
    {
      newBoard := [EmptyRow(|board[0]|)] + newBoard;
    }
  }

  /** On a rectangular board, clearing keeps the height and the width of every row. */
  lemma ClearedShape(b: Matrix)
    requires IsRect(b)
    ensures IsRect(Cleared(b)) && Width(Cleared(b)) == Width(b)
  {
    KeptMembers(b);
    var r := Cleared(b);
    var k := CountFull(b);
    forall i | 0 <= i < |r| ensures |r[i]| == Width(b) {
      if i >= k {
        assert r[i] == Kept(b)[i - k];
        assert r[i] in Kept(b);
      }
    }
  }

  /** Clearing keeps every cell within `lo..hi` when 0 is in that range. */
  lemma ClearedKeepsRange(b: Matrix, lo: int, hi: int)
    requires lo <= 0 <= hi
    requires forall i, j :: 0 <= i < |b| && 0 <= j < |b[i]| ==> lo <= b[i][j] <= hi
    ensures var r := Cleared(b);
      forall i, j :: 0 <= i < |r| && 0 <= j < |r[i]| ==> lo <= r[i][j] <= hi
  {
    KeptMembers(b);
    var r := Cleared(b);
    var k := CountFull(b);
    forall i, j | 0 <= i < |r| && 0 <= j < |r[i]| ensures lo <= r[i][j] <= hi {
      if i >= k {
        assert r[i] == Kept(b)[i - k];
        assert r[i] in Kept(b);
      }
    }
  }

  /** A board with no full row is cleared to itself. */
  lemma {:induction false} NoFullRowIsFixed(b: Matrix)
    requires forall i :: 0 <= i < |b| ==> !IsFull(b[i])
    ensures CountFull(b) == 0 && Kept(b) == b
  {
    if b != [] {
      NoFullRowIsFixed(b[..|b| - 1]);
      assert b[..|b| - 1] + [b[|b| - 1]] == b;
    }
  }

  /** When only the bottom row is full, clearing removes it and puts one
      empty row on top of the others. */
  lemma ClearFullBottomRow(b: Matrix)
    requires |b| > 0 && IsFull(b[|b| - 1])
    requires forall i :: 0 <= i < |b| - 1 ==> !IsFull(b[i])
    ensures CountFull(b) == 1
    ensures Cleared(b) == [EmptyRow(Width(b))] + b[..|b| - 1]
  {
    NoFullRowIsFixed(b[..|b| - 1]);
  }

  /** With a nonzero width the cleared board has no full row, so clearing
      again removes nothing and returns the same board. */
  lemma ClearedIsIdempotent(b: Matrix)
    requires IsRect(b) && Width(b) > 0
    ensures forall i :: 0 <= i < |Cleared(b)| ==> !IsFull(Cleared(b)[i])
    ensures CountFull(Cleared(b)) == 0
    ensures Cleared(Cleared(b)) == Cleared(b)
  {
    var r := Cleared(b);
    var w := Width(b);
    var k := CountFull(b);
    KeptMembers(b);
    forall i | 0 <= i < |r| ensures !IsFull(r[i]) {
      if i < k {
        assert r[i] == EmptyRow(w) && r[i][0] == 0;
      } else {
        assert r[i] == Kept(b)[i - k];
        assert r[i] in Kept(b);
      }
    }
    NoFullRowIsFixed(r);
    ClearedShape(b);
    assert EmptyRows(0, Width(r)) + Kept(r) == r;
  }

  // ---------------------------------------------------------------------------
  // Rotation

  /** The clockwise quarter turn: `rotated[col][rows-1-row] == shape[row][col]`. */
  function RotateCW(s: Matrix): (r: Matrix)
    requires IsRect(s)
    ensures |r| == Width(s) && forall c :: 0 <= c < |r| ==> |r[c]| == |s|
  {
    seq(Width(s), c requires 0 <= c < Width(s) =>
      seq(|s|, k requires 0 <= k < |s| => s[|s| - 1 - k][c]))
  }

  /** The store's inline rotation: `rotated[i][r] == shape[r][cols-1-i]`,
      a counter-clockwise quarter turn. */
  function RotateCCW(s: Matrix): (r: Matrix)
    requires IsRect(s)
    ensures |r| == Width(s) && forall c :: 0 <= c < |r| ==> |r[c]| == |s|
  {
    seq(Width(s), i requires 0 <= i < Width(s) =>
      seq(|s|, r requires 0 <= r < |s| => s[r][|s[r]| - 1 - i]))
  }

  /** The half turn: `s[rows-1-i][cols-1-j]` at (i, j). */
  function Flip(s: Matrix): (r: Matrix)
    requires IsRect(s)
    ensures |r| == |s| && forall i :: 0 <= i < |r| ==> |r[i]| == Width(s)
  {
    seq(|s|, i requires 0 <= i < |s| =>
      seq(Width(s), j requires 0 <= j < Width(s) => s[|s| - 1 - i][Width(s) - 1 - j]))
  }

  /** rotateShape: fills a fresh cols x rows matrix of zeros cell by cell. */
  method RotateShape(shape: Matrix) returns (rotated: Matrix)
    requires IsRect(shape) && |shape| > 0
    ensures |rotated| == Width(shape) && forall c :: 0 <= c < |rotated| ==> |rotated[c]| == |shape|
    ensures forall row, col :: 0 <= row < |shape| && 0 <= col < Width(shape) ==>
      rotated[col][|shape| - 1 - row] == shape[row][col]
    ensures rotated == RotateCW(shape)
  {
    var rows := |shape|;
    var cols := |shape[0]|;
    rotated := EmptyRows(cols, rows);
    var row := 0;
    while row < rows
      invariant 0 <= row <= rows
      invariant |rotated| == cols && forall c :: 0 <= c < cols ==> |rotated[c]| == rows
      invariant forall c, k :: 0 <= c < cols && 0 <= k < rows ==>
        rotated[c][k] == if rows - 1 - k < row then shape[rows - 1 - k][c] else 0
    {
      var col := 0;
      while col < cols
        invariant 0 <= col <= cols
        invariant |rotated| == cols && forall c :: 0 <= c < cols ==> |rotated[c]| == rows
        invariant forall c, k :: 0 <= c < cols && 0 <= k < rows ==>
          rotated[c][k] == if Before(rows - 1 - k, c, row, col) then shape[rows - 1 - k][c] else 0
      {
        rotated := rotated[col := rotated[col][rows - 1 - row := shape[row][col]]];
        col := col + 1;
      }
      row := row + 1;
    }
    forall c | 0 <= c < cols ensures rotated[c] == RotateCW(shape)[c] {
      assert forall k :: 0 <= k < rows ==> rotated[c][k] == RotateCW(shape)[c][k];
    }
  }

  /** Rotating a well-formed shape either way gives a well-formed shape. */
  lemma RotationsKeepShape(s: Matrix)
    requires IsShape(s)
    ensures IsShape(RotateCW(s)) && IsShape(RotateCCW(s))
  {
  }

  /** The store's rotation undoes the utility's rotation, and the other way round. */
  lemma RotationsAreInverse(s: Matrix)
    requires IsRect(s) && |s| > 0 && Width(s) > 0
    ensures RotateCCW(RotateCW(s)) == s
    ensures RotateCW(RotateCCW(s)) == s
  {
    var a := RotateCW(s);
    assert Width(a) == |s|;
    var aa := RotateCCW(a);
    forall i | 0 <= i < |s| ensures aa[i] == s[i] {
      assert forall j :: 0 <= j < Width(s) ==> aa[i][j] == s[i][j];
    }
    var b := RotateCCW(s);
    assert Width(b) == |s|;
    var bb := RotateCW(b);
    forall i | 0 <= i < |s| ensures bb[i] == s[i] {
      assert forall j :: 0 <= j < Width(s) ==> bb[i][j] == s[i][j];
    }
  }

  /** Two quarter turns in either direction make the same half turn. */
  lemma HalfTurns(s: Matrix)
    requires IsRect(s) && |s| > 0 && Width(s) > 0
    ensures RotateCW(RotateCW(s)) == Flip(s)
    ensures RotateCCW(RotateCCW(s)) == Flip(s)
  {
    var a := RotateCW(s);
    assert Width(a) == |s|;
    var aa := RotateCW(a);
    forall i | 0 <= i < |s| ensures aa[i] == Flip(s)[i] {
      assert forall j :: 0 <= j < Width(s) ==> aa[i][j] == Flip(s)[i][j];
    }
    var b := RotateCCW(s);
    assert Width(b) == |s|;
    var bb := RotateCCW(b);
    forall i | 0 <= i < |s| ensures bb[i] == Flip(s)[i] {
      assert forall j :: 0 <= j < Width(s) ==> bb[i][j] == Flip(s)[i][j];
    }
  }

  /** The half turn is an involution on rectangular matrices. */
  lemma FlipFlip(s: Matrix)
    requires IsRect(s) && |s| > 0 && Width(s) > 0
    ensures IsRect(Flip(s)) && |Flip(s)| > 0 && Width(Flip(s)) == Width(s)
    ensures Flip(Flip(s)) == s
  {
    var f := Flip(s);
    assert Width(f) == Width(s);
    var ff := Flip(f);
    forall i | 0 <= i < |s| ensures ff[i] == s[i] {
      assert forall j :: 0 <= j < Width(s) ==> ff[i][j] == s[i][j];
    }
  }

  /** Four quarter turns in either direction give back the original shape. */
  lemma FourTurnsIdentity(s: Matrix)
    requires IsRect(s) && |s| > 0 && Width(s) > 0
    ensures RotateCW(RotateCW(RotateCW(RotateCW(s)))) == s
    ensures RotateCCW(RotateCCW(RotateCCW(RotateCCW(s)))) == s
  {
    HalfTurns(s);
    FlipFlip(s);
    HalfTurns(Flip(s));
  }
}
