/** The game-state store (src/store/game.js): one mutable record holding the
    board, the falling piece, its position, the score and the flags, with the
    guarded actions the UI calls.

    Each action is a method of `GameStore` whose postcondition ties the new
    state, read through `Snapshot()`, to a ghost transition function of the
    old state (`AfterMoveLeft`, `AfterMoveDown`, ...).  The lemmas further
    down state what the game promises about those transitions. */
module GameStore {
  import opened GameUtils

  const Rows: nat := 20
  const Cols: nat := 10
  /** Points per cleared line. */
  const LinePoints: nat := 100

  datatype Option<T> = None | Some(value: T)

  /** The store's fields as one value.  `loopActive` stands for the timer
      handle `gameInterval` being set. */
  datatype State = State(
    board: Matrix,
    currentPiece: Option<Piece>,
    position: Position,
    score: nat,
    isGameOver: bool,
    isPaused: bool,
    loopActive: bool)

  /** A 20 x 10 board whose cells are 0 or a piece type. */
  predicate IsBoard(b: Matrix) {
    && |b| == Rows
    && (forall i :: 0 <= i < |b| ==> |b[i]| == Cols)
    && forall i, j :: 0 <= i < |b| && 0 <= j < |b[i]| ==> 0 <= b[i][j] <= 7
  }

  predicate ValidPiece(p: Piece) {
    1 <= p.kind <= 7 && IsShape(p.shape)
  }

  /** The board and the piece are well formed. */
  predicate WellFormed(s: State) {
    IsBoard(s.board) && (s.currentPiece.Some? ==> ValidPiece(s.currentPiece.value))
  }

  /** A piece is falling and the game is not over. */
  predicate Playing(s: State) {
    !s.isGameOver && s.currentPiece.Some?
  }

  /** The guard every player action starts with. */
  predicate Idle(s: State) {
    s.isPaused || s.isGameOver || s.currentPiece.None?
  }

  /** The store's invariant: well formed, and while playing the piece does not collide. */
  ghost predicate Inv(s: State) {
    WellFormed(s) && (Playing(s) ==> !Collides(s.board, s.currentPiece.value.shape, s.position))
  }

  function EmptyBoard(): Matrix {
    EmptyRows(Rows, Cols)
  }

  /** The state the store is created with. */
  function Initial(): State {
    State(EmptyBoard(), None, Position(0, 0), 0, false, false, false)
  }

  // ---------------------------------------------------------------------------
  // Transitions

  /** spawnNewPiece: the drawn piece, horizontally centred on the top row;
      a collision there ends the game and stops the loop. */
  ghost function AfterSpawn(s: State, draw: nat): State
    requires IsBoard(s.board) && draw < |Shapes|
  {
    var p := GetRandomShape(draw);
    var pos := Position((Cols - Width(p.shape)) / 2, 0);
    if Collides(s.board, p.shape, pos) then
      s.(currentPiece := Some(p), position := pos, isGameOver := true, loopActive := false)
    else
      s.(currentPiece := Some(p), position := pos)
  }

  /** startGame: reset everything, spawn, and start the loop. */
  ghost function AfterStart(s: State, draw: nat): State
    requires draw < |Shapes|
  {
    var reset := Initial();
    AfterSpawn(reset, draw).(loopActive := true)
  }

  ghost function AfterMoveLeft(s: State): State
    requires Inv(s)
  {
    if Idle(s) then s
    else
      var newPosition := s.position.(x := s.position.x - 1);
      if !Collides(s.board, s.currentPiece.value.shape, newPosition) then s.(position := newPosition) else s
  }

  ghost function AfterMoveRight(s: State): State
    requires Inv(s)
  {
    if Idle(s) then s
    else
      var newPosition := s.position.(x := s.position.x + 1);
      if !Collides(s.board, s.currentPiece.value.shape, newPosition) then s.(position := newPosition) else s
  }

  /** The first part of mergePiece: the piece type written into the covered
      cells, full lines cleared and 100 points added per line. */
  ghost function Settle(s: State): (t: State)
    requires WellFormed(s) && s.currentPiece.Some?
    ensures IsBoard(t.board)
  {
    var piece := s.currentPiece.value;
    var stamped := Stamp(s.board, piece.shape, s.position, piece.kind);
    StampKeepsRange(s.board, piece.shape, s.position, piece.kind, 0, 7);
    ClearedShape(stamped);
    ClearedKeepsRange(stamped, 0, 7);
    s.(board := Cleared(stamped), score := s.score + CountFull(stamped) * LinePoints)
  }

  /** mergePiece: settle the piece, then spawn the next one. */
  ghost function AfterMerge(s: State, draw: nat): State
    requires WellFormed(s) && draw < |Shapes|
  {
    if s.currentPiece.None? then s else AfterSpawn(Settle(s), draw)
  }

  /** moveDown: one row down if that is free (true); otherwise merge (false). */
  ghost function AfterMoveDown(s: State, draw: nat): (State, bool)
    requires Inv(s) && draw < |Shapes|
  {
    if Idle(s) then (s, false)
    else
      var newPosition := s.position.(y := s.position.y + 1);
      if !Collides(s.board, s.currentPiece.value.shape, newPosition) then (s.(position := newPosition), true)
      else (AfterMerge(s, draw), false)
  }

  /** rotate: the counter-clockwise turn of the shape, kept only if it fits
      where the piece is (no wall kick). */
  ghost function AfterRotate(s: State): State
    requires Inv(s)
  {
    if Idle(s) then s
    else
      var piece := s.currentPiece.value;
      var rotated := Piece(piece.kind, RotateCCW(piece.shape));
      if !Collides(s.board, rotated.shape, s.position) then s.(currentPiece := Some(rotated)) else s
  }

  ghost function AfterPause(s: State): State {
    s.(isPaused := !s.isPaused)
  }

  /** One timer callback: a move down unless paused or over. */
  ghost function AfterTick(s: State, draw: nat): State
    requires Inv(s) && draw < |Shapes|
  {
    if !s.isPaused && !s.isGameOver then AfterMoveDown(s, draw).0 else s
  }

  // ---------------------------------------------------------------------------
  // The store

  class GameStore {
    var board: Matrix
    var currentPiece: Option<Piece>
    var position: Position
    var score: nat
    var isGameOver: bool
    var isPaused: bool
    /** The timer handle `gameInterval` is set. */
    var loopActive: bool

    ghost function Snapshot(): State
      reads this
    {
      State(board, currentPiece, position, score, isGameOver, isPaused, loopActive)
    }

    ghost predicate Valid()
      reads this
    {
      Inv(Snapshot())
    }

    /** The initial state: an empty board, no piece, score 0, no timer. */
    constructor ()
      ensures Valid() && Snapshot() == Initial()
    {
      board := EmptyRows(Rows, Cols);
      currentPiece := None;
      position := Position(0, 0);
      score := 0;
      isGameOver := false;
      isPaused := false;
      loopActive := false;
    }

    /** displayBoard: a copy of the board with the falling piece drawn in
        with its type, clipped to the board. */
    function DisplayBoard(): (display: Matrix)
      reads this
      requires WellFormed(Snapshot())
      ensures IsBoard(display)
      ensures currentPiece.None? ==> display == board
      ensures currentPiece.Some? ==> forall i, j :: 0 <= i < Rows && 0 <= j < Cols ==>
        display[i][j] == if Covers(currentPiece.value.shape, position, i, j) then currentPiece.value.kind else board[i][j]
    {
      if currentPiece.None? then board
      else
        StampKeepsRange(board, currentPiece.value.shape, position, currentPiece.value.kind, 0, 7);
        Stamp(board, currentPiece.value.shape, position, currentPiece.value.kind)
    }

    method StartGame(draw: nat)
      requires Valid() && draw < |Shapes|
      modifies this
      ensures Valid() && Snapshot() == AfterStart(old(Snapshot()), draw)
    {
      StopGameLoop();
      board := EmptyRows(Rows, Cols);
      score := 0;
      isGameOver := false;
      isPaused := false;
      currentPiece := None;
      position := Position(0, 0);
      SpawnNewPiece(draw);
      StartGameLoop();
    }

    method SpawnNewPiece(draw: nat)
      requires WellFormed(Snapshot()) && draw < |Shapes|
      modifies this
      ensures Valid() && Snapshot() == AfterSpawn(old(Snapshot()), draw)
    {
      currentPiece := Some(GetRandomShape(draw));
      position := Position((Cols - |currentPiece.value.shape[0]|) / 2, 0);
      var hit := CheckCollision(board, currentPiece.value.shape, position);
      if hit {
        isGameOver := true;
        StopGameLoop();
      }
    }

    method StartGameLoop()
      modifies this
      ensures Snapshot() == old(Snapshot()).(loopActive := true)
    {
      StopGameLoop();
      loopActive := true;
    }

    method StopGameLoop()
      modifies this
      ensures Snapshot() == old(Snapshot()).(loopActive := false)
    {
      if loopActive {
        loopActive := false;
      }
    }

    /** The timer callback; it only fires while the loop is active. */
    method Tick(draw: nat)
      requires Valid() && loopActive && draw < |Shapes|
      modifies this
      ensures Valid() && Snapshot() == AfterTick(old(Snapshot()), draw)
    {
      if !isPaused && !isGameOver {
        var moved := MoveDown(draw);
      }
    }

    method MoveLeft()
      requires Valid()
      modifies this
      ensures Valid() && Snapshot() == AfterMoveLeft(old(Snapshot()))
    {
      if isPaused || isGameOver || currentPiece.None? {
        return;
      }
      var newPosition := position.(x := position.x - 1);
      var hit := CheckCollision(board, currentPiece.value.shape, newPosition);
      if !hit {
        position := newPosition;
      }
    }

    method MoveRight()
      requires Valid()
      modifies this
      ensures Valid() && Snapshot() == AfterMoveRight(old(Snapshot()))
    {
      if isPaused || isGameOver || currentPiece.None? {
        return;
      }
      var newPosition := position.(x := position.x + 1);
      var hit := CheckCollision(board, currentPiece.value.shape, newPosition);
      if !hit {
        position := newPosition;
      }
    }

    method MoveDown(draw: nat) returns (moved: bool)
      requires Valid() && draw < |Shapes|
      modifies this
      ensures Valid() && (Snapshot(), moved) == AfterMoveDown(old(Snapshot()), draw)
    {
      if isPaused || isGameOver || currentPiece.None? {
        return false;
      }
      var newPosition := position.(y := position.y + 1);
      var hit := CheckCollision(board, currentPiece.value.shape, newPosition);
      if !hit {
        position := newPosition;
        return true;
      } else {
        MergePiece(draw);
        return false;
      }
    }

    method Rotate()
      requires Valid()
      modifies this
      ensures Valid() && Snapshot() == AfterRotate(old(Snapshot()))
    {
      if isPaused || isGameOver || currentPiece.None? {
        return;
      }
      var piece := currentPiece.value;
      var rotated := Piece(piece.kind, RotateCCW(piece.shape));
      var hit := CheckCollision(board, rotated.shape, position);
      if !hit {
        RotationsKeepShape(piece.shape);
        currentPiece := Some(rotated);
      }
    }

    /** mergePiece: writes the piece type into the board, then clears lines,
        scores them and spawns the next piece. */
    method MergePiece(draw: nat)
      requires WellFormed(Snapshot()) && draw < |Shapes|
      modifies this
      ensures Snapshot() == AfterMerge(old(Snapshot()), draw)
      ensures Valid()
    {
      if currentPiece.None? {
        assert AfterMerge(Snapshot(), draw) == Snapshot();
        assert Valid();
        return;
      }
      ghost var s0 := Snapshot();
      var shape, kind, pos := currentPiece.value.shape, currentPiece.value.kind, position;
      WritePiece(shape, kind, pos);
      var newBoard, linesCleared := ClearLines(board);
      board := newBoard;
      score := score + linesCleared * LinePoints;
      assert Snapshot() == Settle(s0);
      SpawnNewPiece(draw);
    }

    /** The in-place part of mergePiece: writes `kind` into every board cell
        under an occupied cell of `shape` at `pos`, row by row. */
    method WritePiece(shape: Matrix, kind: int, pos: Position)
      requires IsBoard(board)
      modifies this
      ensures Snapshot() == old(Snapshot()).(board := Stamp(old(board), shape, pos, kind))
    {
      ghost var before := board;
      var rowIndex := 0;
      while rowIndex < |shape|
        invariant 0 <= rowIndex <= |shape|
        invariant Snapshot() == old(Snapshot()).(board := board)
        invariant |board| == Rows && forall i :: 0 <= i < Rows ==> |board[i]| == Cols
        invariant forall i, j :: 0 <= i < Rows && 0 <= j < Cols ==>
          board[i][j] == if Covers(shape, pos, i, j) && i - pos.y < rowIndex then kind else before[i][j]
      {
        var colIndex := 0;
        while colIndex < |shape[rowIndex]|
          invariant 0 <= colIndex <= |shape[rowIndex]|
          invariant Snapshot() == old(Snapshot()).(board := board)
          invariant |board| == Rows && forall i :: 0 <= i < Rows ==> |board[i]| == Cols
          invariant forall i, j :: 0 <= i < Rows && 0 <= j < Cols ==>
            board[i][j] == if Covers(shape, pos, i, j) && Before(i - pos.y, j - pos.x, rowIndex, colIndex) then kind else before[i][j]
        {
          if shape[rowIndex][colIndex] != 0 {
            var boardRow := pos.y + rowIndex;
            var boardCol := pos.x + colIndex;
            if boardRow >= 0 && boardRow < Rows && boardCol >= 0 && boardCol < Cols {
              board := board[boardRow := board[boardRow][boardCol := kind]];
            }
          }
          colIndex := colIndex + 1;
        }
        rowIndex := rowIndex + 1;
      }
      StampEq(board, before, shape, pos, kind);
    }

    method PauseGame()
      modifies this
      ensures Snapshot() == AfterPause(old(Snapshot()))
      ensures old(Valid()) ==> Valid()
    {
      isPaused := !isPaused;
    }
  }

  // ---------------------------------------------------------------------------
  // Properties of the transitions

  /** No catalog piece collides at its spawn point on an empty board. */
  lemma SpawnOnEmptyBoard(draw: nat)
    requires draw < |Shapes|
    ensures var p := GetRandomShape(draw);
      !Collides(EmptyBoard(), p.shape, Position((Cols - Width(p.shape)) / 2, 0))
  {
  }

  /** spawnNewPiece puts the drawn piece on row 0, centred so that its
      bounding box lies within the board's columns; the game ends, and the
      loop stops, exactly when the piece collides there.  Nothing else changes. */
  lemma SpawnPlacement(s: State, draw: nat)
    requires IsBoard(s.board) && draw < |Shapes|
    ensures var t := AfterSpawn(s, draw);
      && t.currentPiece == Some(Shapes[draw])
      && var w := Width(Shapes[draw].shape);
      && t.position == Position((Cols - w) / 2, 0)
      && 0 <= t.position.x && t.position.x + w <= Cols
      && (t.isGameOver <==> s.isGameOver || Collides(s.board, Shapes[draw].shape, t.position))
      && (Collides(s.board, Shapes[draw].shape, t.position) ==> !t.loopActive)
      && (!Collides(s.board, Shapes[draw].shape, t.position) ==> t.loopActive == s.loopActive)
      && t.board == s.board && t.score == s.score && t.isPaused == s.isPaused
  {
  }

  /** Spawning re-establishes the invariant from any well-formed state. */
  lemma SpawnKeepsInv(s: State, draw: nat)
    requires WellFormed(s) && draw < |Shapes|
    ensures Inv(AfterSpawn(s, draw))
  {
  }

  /** startGame leaves an empty board, score 0, both flags clear, the loop
      running and the drawn piece in play without a collision. */
  lemma StartResets(s: State, draw: nat)
    requires draw < |Shapes|
    ensures var t := AfterStart(s, draw);
      && t.board == EmptyBoard() && t.score == 0
      && !t.isGameOver && !t.isPaused && t.loopActive
      && t.currentPiece == Some(Shapes[draw])
      && Inv(t)
  {
  }

  /** While paused, over, or without a piece, the player actions change nothing. */
  lemma IdleActionsAreNoOps(s: State, draw: nat)
    requires Inv(s) && Idle(s) && draw < |Shapes|
    ensures AfterMoveLeft(s) == s && AfterMoveRight(s) == s && AfterRotate(s) == s
    ensures AfterMoveDown(s, draw) == (s, false)
  {
  }

  /** moveLeft and moveRight change at most position.x, by exactly one
      column, and only to a place where the piece does not collide; when the
      game is in play and that place is free, the move is made. */
  lemma SideMovesShiftOnlyX(s: State)
    requires Inv(s)
    ensures var t := AfterMoveLeft(s);
      t == s ||
      (!Idle(s) && t == s.(position := Position(s.position.x - 1, s.position.y)) &&
       !Collides(t.board, t.currentPiece.value.shape, t.position))
    ensures var t := AfterMoveRight(s);
      t == s ||
      (!Idle(s) && t == s.(position := Position(s.position.x + 1, s.position.y)) &&
       !Collides(t.board, t.currentPiece.value.shape, t.position))
    ensures var left := Position(s.position.x - 1, s.position.y);
      !Idle(s) && !Collides(s.board, s.currentPiece.value.shape, left) ==>
      AfterMoveLeft(s) == s.(position := left)
    ensures var right := Position(s.position.x + 1, s.position.y);
      !Idle(s) && !Collides(s.board, s.currentPiece.value.shape, right) ==>
      AfterMoveRight(s) == s.(position := right)
  {
  }

  /** A successful move left is undone by a move right, and the other way round. */
  lemma SideMovesUndo(s: State)
    requires Inv(s)
    ensures AfterMoveLeft(s) != s ==> AfterMoveRight(AfterMoveLeft(s)) == s
    ensures AfterMoveRight(s) != s ==> AfterMoveLeft(AfterMoveRight(s)) == s
  {
  }

  /** Once an occupied cell of the piece is in column 0, moveLeft changes
      nothing; once one is in the last column, moveRight changes nothing. */
  lemma WallsStopSideMoves(s: State, r: int, c: int)
    requires Inv(s) && Playing(s) && Occupied(s.currentPiece.value.shape, r, c)
    ensures s.position.x + c == 0 ==> AfterMoveLeft(s) == s
    ensures s.position.x + c == Cols - 1 ==> AfterMoveRight(s) == s
  {
  }

  /** moveDown reports true exactly when the row below is free, and then only
      position.y changes, by one; otherwise the piece is merged. */
  lemma MoveDownOutcome(s: State, draw: nat)
    requires Inv(s) && !Idle(s) && draw < |Shapes|
    ensures var below := Position(s.position.x, s.position.y + 1);
      var (t, moved) := AfterMoveDown(s, draw);
      && (moved <==> !Collides(s.board, s.currentPiece.value.shape, below))
      && (moved ==> t == s.(position := below))
      && (!moved ==> t == AfterMerge(s, draw))
  {
  }

  /** rotate keeps the type and the position, and replaces the shape by its
      counter-clockwise turn exactly when the game is in play and that turn fits. */
  lemma RotateOutcome(s: State)
    requires Inv(s)
    ensures var t := AfterRotate(s);
      t == s ||
      (&& !Idle(s)
       && t == s.(currentPiece := Some(Piece(s.currentPiece.value.kind, RotateCCW(s.currentPiece.value.shape))))
       && !Collides(s.board, t.currentPiece.value.shape, s.position))
    ensures !Idle(s) && !Collides(s.board, RotateCCW(s.currentPiece.value.shape), s.position) ==>
      AfterRotate(s) == s.(currentPiece := Some(Piece(s.currentPiece.value.kind, RotateCCW(s.currentPiece.value.shape))))
  {
  }

  /** A piece in play lies within the side walls and above the floor, and
      every board cell under it is empty. */
  lemma PieceInPlayIsInside(s: State)
    requires Inv(s) && Playing(s)
    ensures var shape := s.currentPiece.value.shape;
      && (forall r, c :: Occupied(shape, r, c) ==> 0 <= s.position.x + c < Cols && s.position.y + r < Rows)
      && forall i, j :: 0 <= i < Rows && 0 <= j < Cols && Covers(shape, s.position, i, j) ==> s.board[i][j] == 0
  {
  }

  /** mergePiece adds exactly 100 points per full row of the stamped board,
      so the score never decreases, and the board stays 20 x 10 with cells
      in 0..7. */
  lemma MergeScoresLines(s: State, draw: nat)
    requires WellFormed(s) && s.currentPiece.Some? && draw < |Shapes|
    ensures var piece := s.currentPiece.value;
      var stamped := Stamp(s.board, piece.shape, s.position, piece.kind);
      var t := AfterMerge(s, draw);
      && t.score == s.score + LinePoints * CountFull(stamped)
      && t.score >= s.score
      && t.board == Cleared(stamped)
      && IsBoard(t.board)
  {
  }

  /** Merging a piece that completes the bottom row, and no other, clears
      exactly that row: an empty row appears on top and the score grows by 100. */
  lemma CompletingBottomRowScores(s: State, draw: nat)
    requires WellFormed(s) && s.currentPiece.Some? && draw < |Shapes|
    requires var piece := s.currentPiece.value;
      var stamped := Stamp(s.board, piece.shape, s.position, piece.kind);
      IsFull(stamped[Rows - 1]) && forall i :: 0 <= i < Rows - 1 ==> !IsFull(stamped[i])
    ensures var piece := s.currentPiece.value;
      var stamped := Stamp(s.board, piece.shape, s.position, piece.kind);
      var t := AfterMerge(s, draw);
      t.score == s.score + LinePoints && t.board == [EmptyRow(Cols)] + stamped[..Rows - 1]
  {
    var piece := s.currentPiece.value;
    var stamped := Stamp(s.board, piece.shape, s.position, piece.kind);
    ClearFullBottomRow(stamped);
    MergeScoresLines(s, draw);
  }

  /** The store's invariant is kept by every action. */
  lemma ActionsKeepInv(s: State, draw: nat)
    requires Inv(s) && draw < |Shapes|
    ensures Inv(AfterMoveLeft(s)) && Inv(AfterMoveRight(s))
    ensures Inv(AfterRotate(s)) && Inv(AfterPause(s))
    ensures Inv(AfterMoveDown(s, draw).0) && Inv(AfterTick(s, draw))
    ensures Inv(AfterMerge(s, draw)) && Inv(AfterStart(s, draw))
  {
    if !Idle(s) {
      RotationsKeepShape(s.currentPiece.value.shape);
    }
    if s.currentPiece.Some? {
      SpawnKeepsInv(Settle(s), draw);
    }
    StartResets(s, draw);
  }

  /** pauseGame only toggles isPaused, so pausing twice restores the state. */
  lemma PauseTwiceRestores(s: State)
    ensures AfterPause(s).isPaused == !s.isPaused
    ensures AfterPause(s).(isPaused := s.isPaused) == s
    ensures AfterPause(AfterPause(s)) == s
  {
  }

  // ---------------------------------------------------------------------------
  // A piece falling on an empty board

  /** On a state that meets the invariant, a timer tick is a move down: when
      the game is paused or over, moveDown changes nothing either. */
  lemma TickIsMoveDown(s: State, draw: nat)
    requires Inv(s) && draw < |Shapes|
    ensures AfterTick(s, draw) == AfterMoveDown(s, draw).0
  {
  }

  /** The state after `n` moves down, which are `n` timer ticks by
      `TickIsMoveDown`. */
  ghost function Fall(s: State, n: nat, draw: nat): (t: State)
    requires Inv(s) && draw < |Shapes|
    ensures Inv(t)
    decreases n
  {
    if n == 0 then s
    else
      ActionsKeepInv(s, draw);
      Fall(AfterMoveDown(s, draw).0, n - 1, draw)
  }

  /** The O piece with its top-left corner in column 4 fits on an empty board
      on every row from 0 to 18, and not on row 19. */
  lemma OPieceOnEmptyBoard(y: int)
    requires 0 <= y <= 19
    ensures Collides(EmptyBoard(), Shapes[1].shape, Position(4, y)) <==> y == 19
  {
    var shape := Shapes[1].shape;
    if y == 19 {
      assert Occupied(shape, 1, 0) && Blocked(EmptyBoard(), y + 1, 4);
    } else {
      forall r, c | Occupied(shape, r, c) ensures !Blocked(EmptyBoard(), y + r, 4 + c) {
        assert EmptyBoard()[y + r][4 + c] == 0;
      }
    }
  }

  /** From row y, each move down of the O piece on an empty board succeeds
      until the piece reaches row 18. */
  lemma {:induction false} OPieceFalls(s: State, y: nat, n: nat, draw: nat)
    requires draw < |Shapes| && y + n <= 18
    requires s.board == EmptyBoard() && s.currentPiece == Some(Shapes[1])
    requires !s.isGameOver && !s.isPaused && s.position == Position(4, y)
    ensures Inv(s) && Fall(s, n, draw) == s.(position := Position(4, y + n))
    decreases n
  {
    OPieceOnEmptyBoard(y);
    if n > 0 {
      OPieceOnEmptyBoard(y + 1);
      var next := s.(position := Position(4, y + 1));
      assert AfterMoveDown(s, draw).0 == next;
      OPieceFalls(next, y + 1, n - 1, draw);
    }
  }

  /** The O piece stamped on rows 18-19, columns 4-5 of an empty board. */
  function OLanded(): Matrix {
    Stamp(EmptyBoard(), Shapes[1].shape, Position(4, 18), TypeO)
  }

  /** That board holds the type 2 in exactly the four cells of the piece. */
  lemma OLandedCells()
    ensures IsBoard(OLanded())
    ensures forall i, j :: 0 <= i < Rows && 0 <= j < Cols ==>
      OLanded()[i][j] == if 18 <= i && 4 <= j <= 5 then TypeO else 0
  {
    StampKeepsRange(EmptyBoard(), Shapes[1].shape, Position(4, 18), TypeO, 0, 7);
  }

  /** Column 0 of that board is empty, so no row is full and clearing leaves it as it is. */
  lemma OLandedClearsNothing()
    ensures CountFull(OLanded()) == 0 && Cleared(OLanded()) == OLanded()
  {
    var b := OLanded();
    OLandedCells();
    forall i | 0 <= i < |b| ensures !IsFull(b[i]) {
      assert b[i][0] == 0;
    }
    NoFullRowIsFixed(b);
    assert EmptyRows(0, Width(b)) + Kept(b) == b;
  }

  /** The O piece resting on rows 18-19 of an empty board cannot move down:
      it is merged into the board with no line cleared and no points. */
  lemma OPieceLands(s: State, draw: nat)
    requires draw < |Shapes|
    requires s.board == EmptyBoard() && s.currentPiece == Some(Shapes[1])
    requires !s.isGameOver && !s.isPaused && s.position == Position(4, 18)
    ensures Inv(s)
    ensures var (t, moved) := AfterMoveDown(s, draw);
      && !moved && t.score == s.score
      && t.board == OLanded()
  {
    OPieceOnEmptyBoard(18);
    OPieceOnEmptyBoard(19);
    assert AfterMoveDown(s, draw) == (AfterMerge(s, draw), false);
    OLandedClearsNothing();
    MergeScoresLines(s, draw);
  }

  /** Started with an O piece, 18 ticks bring it to rows 18-19, and the next
      move down lands it on the floor in columns 4-5. */
  lemma ODropScenario(draw: nat)
    requires draw < |Shapes|
    ensures var s0 := AfterStart(Initial(), 1);
      && s0.position == Position(4, 0)
      && Fall(s0, 18, draw) == s0.(position := Position(4, 18))
      && var (t, moved) := AfterMoveDown(Fall(s0, 18, draw), draw);
      && !moved && t.score == 0 && IsBoard(t.board)
      && t.board[19][4] == TypeO && t.board[19][5] == TypeO
      && t.board[18][4] == TypeO && t.board[18][5] == TypeO
  {
    var s0 := AfterStart(Initial(), 1);
    StartResets(Initial(), 1);
    OPieceFalls(s0, 0, 18, draw);
    OPieceLands(s0.(position := Position(4, 18)), draw);
    OLandedCells();
  }
}
