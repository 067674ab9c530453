/** The block-stack engine as an object whose fields change one step at a
    time. Every method is proved against the pure rules of `TetrisRules`;
    the landing sequence and the tick are proved equal to `Settle` on the
    snapshot `State()`. Randomness enters as `roll`, the index the engine
    draws into its list of piece names. */
module Tetris {
  import opened Shared
  import opened TetrisRules

  /** The commands the key map understands. */
  datatype Command = MoveLeft | MoveRight | SoftDrop | RotateClockwise

  /** Arrow keys and their letter equivalents in both cases; any other key
      is ignored. */
  function KeyCommand(key: string): (c: Option<Command>)
    ensures c.Some? <==> key in ControlKeys
  {
    if key == "ArrowLeft" || key == "a" || key == "A" then Some(MoveLeft)
    else if key == "ArrowRight" || key == "d" || key == "D" then Some(MoveRight)
    else if key == "ArrowDown" || key == "s" || key == "S" then Some(SoftDrop)
    else if key == "ArrowUp" || key == "w" || key == "W" then Some(RotateClockwise)
    else None
  }

  class TetrisGame {
    var board: Board
    var current: Option<Piece>
    var score: nat
    var highScore: nat
    var level: nat
    var lines: nat
    var isRunning: bool
    var isPaused: bool
    var timer: Option<int>
    var cues: seq<Cue>

    ghost function State(): TetrisState
      reads this
    {
      TetrisState(board, current, score, level, lines, isRunning, isPaused, timer, highScore, cues)
    }

    ghost predicate Valid()
      reads this
    {
      Inv(State())
    }

    /** A new engine: no board and no piece until the first reset. The
        stored high score is what persistence returned (0 when absent). */
    constructor (storedHighScore: nat)
      ensures Valid()
      ensures board == [] && current == None && score == 0 && level == 1 && lines == 0
      ensures !isRunning && !isPaused && timer == None
      ensures highScore == storedHighScore && cues == []
    {
      board := [];
      current := None;
      score := 0;
      highScore := storedHighScore;
      level := 1;
      lines := 0;
      isRunning := false;
      isPaused := false;
      timer := None;
      cues := [];
    }

    /** Empty board, score, level and lines back to (0, 1, 0), a first
        piece, and a running game at the level-1 interval. */
    method ResetGame(roll: nat)
      requires roll < 7
      modifies this
      ensures Valid()
      ensures board == EmptyBoard() && current == Some(Spawn(roll))
      ensures score == 0 && level == 1 && lines == 0
      ensures isRunning && !isPaused && timer == Some(Interval(1))
      ensures highScore == old(highScore) && cues == old(cues)
    {
      board := EmptyBoard();
      score := 0;
      level := 1;
      lines := 0;
      isRunning := false;
      isPaused := false;
      SpawnNewPiece(roll);
      StartGame();
      assert NoFullRow(board) by {
        forall r | 0 <= r < |board| ensures !Full(board[r]) {
          assert board[r][0] == Empty;
        }
      }
    }

    /** Marks the game running and unpaused and (re)schedules the tick timer
        at the interval for the current level. */
    method StartGame()
      modifies this`isRunning, this`isPaused, this`timer
      ensures isRunning && !isPaused && timer == Some(Interval(level))
    {
      isRunning := true;
      isPaused := false;
      timer := Some(Interval(level));
    }

    /** Flips the pause flag, but only while the game runs. */
    method TogglePause()
      requires Valid()
      modifies this`isPaused
      ensures Valid()
      ensures isPaused == if isRunning then !old(isPaused) else old(isPaused)
    {
      if !isRunning {
        return;
      }
      isPaused := !isPaused;
    }

    method SpawnNewPiece(roll: nat)
      requires roll < 7
      modifies this`current
      ensures current == Some(Spawn(roll))
    {
      current := Some(Spawn(roll));
    }

    /** The placement check, scanning the shape row by row and stopping at
        the first occupied cell that is out of bounds or on a filled cell. */
    method IsValidPosition(p: Piece, dx: int, dy: int) returns (ok: bool)
      requires IsBoard(board) && IsShape(p.shape)
      ensures ok == Fits(board, p, dx, dy)
    {
      var r := 0;
      while r < 4
        invariant 0 <= r <= 4
        invariant forall rr, c :: 0 <= rr < r && 0 <= c < 4 && p.shape[rr][c] != 0 ==>
          CellFree(board, p.x + c + dx, p.y + rr + dy)
      {
        var c := 0;
        while c < 4
          invariant 0 <= c <= 4
          invariant forall rr, cc :: 0 <= rr < r && 0 <= cc < 4 && p.shape[rr][cc] != 0 ==>
            CellFree(board, p.x + cc + dx, p.y + rr + dy)
          invariant forall cc :: 0 <= cc < c && p.shape[r][cc] != 0 ==>
            CellFree(board, p.x + cc + dx, p.y + r + dy)
        {
          if p.shape[r][c] != 0 {
            var boardX := p.x + c + dx;
            var boardY := p.y + r + dy;
            if boardX < 0 || boardX >= Width || boardY >= Height {
              return false;
            }
            if boardY >= 0 && board[boardY][boardX] != Empty {
              return false;
            }
          }
          c := c + 1;
        }
        r := r + 1;
      }
      return true;
    }

    /** Moves the piece by the offset when that position is valid and
        reports whether it moved. */
    method MovePiece(dx: int, dy: int) returns (moved: bool)
      requires current.Some? && IsBoard(board) && IsShape(current.value.shape)
      modifies this`current
      ensures moved == Fits(board, old(current).value, dx, dy)
      ensures current == if moved then Some(Shifted(old(current).value, dx, dy)) else old(current)
    {
      moved := IsValidPosition(current.value, dx, dy);
      if moved {
        current := Some(Shifted(current.value, dx, dy));
      }
    }

    /** Rotates clockwise, trying the wall kicks in order when the rotated
        shape does not fit in place, and restores the original shape when
        no kick works. A committed rotation requests the rotate cue. */
    method RotatePiece()
      requires Valid()
      modifies this`current, this`cues
      ensures Valid()
      ensures old(current).None? ==> current == old(current) && cues == old(cues)
      ensures old(current).Some? ==>
        match RotateAttempt(board, old(current).value)
        case Some(q) => current == Some(q) && cues == old(cues) + [Cue.Rotate]
        case None => current == old(current) && cues == old(cues)
    {
      if current.None? {
        return;
      }
      var p := current.value;
      var originalShape := p.shape;
      var rotated := Rotated(originalShape);
      RotatedHasCell(originalShape);
      current := Some(p.(shape := rotated));
      var ok := IsValidPosition(current.value, 0, 0);
      if !ok {
        ghost var rp := p.(shape := rotated);
        var kicked := false;
        var i := 0;
        while i < |Kicks|
          invariant 0 <= i <= |Kicks|
          invariant current == Some(rp) && cues == old(cues)
          invariant i <= FirstFit(board, rp, 0)
        {
          var fits := IsValidPosition(current.value, Kicks[i].0, Kicks[i].1);
          if fits {
            assert FirstFit(board, rp, 0) == i;
            current := Some(Shifted(current.value, Kicks[i].0, Kicks[i].1));
            cues := cues + [Cue.Rotate];
            kicked := true;
            assert current.value.shape == rotated;
            break;
          }
          i := i + 1;
        }
        if !kicked {
          assert FirstFit(board, rp, 0) == |Kicks|;
          current := Some(current.value.(shape := originalShape));
          assert current == old(current);
        }
      } else {
        cues := cues + [Cue.Rotate];
      }
    }

    /** Writes the piece's colour into each on-board cell its shape
        occupies. */
    method LockPiece()
      requires current.Some? ==> IsBoard(board) && IsShape(current.value.shape)
      modifies this`board
      ensures old(current).Some? ==> board == Locked(old(board), current.value)
      ensures old(current).None? ==> board == old(board)
    {
      if current.None? {
        return;
      }
      var p := current.value;
      var y := 0;
      while y < 4
        invariant 0 <= y <= 4
        invariant IsBoard(board)
        invariant forall r, c :: 0 <= r < Height && 0 <= c < Width ==>
          board[r][c] == if Covers(p, r, c) && r - p.y < y then Block(p.kind) else old(board)[r][c]
      {
        var x := 0;
        while x < 4
          invariant 0 <= x <= 4
          invariant IsBoard(board)
          invariant forall r, c :: 0 <= r < Height && 0 <= c < Width ==>
            board[r][c] == if Covers(p, r, c) && (r - p.y < y || (r - p.y == y && c - p.x < x))
                           then Block(p.kind) else old(board)[r][c]
        {
          if p.shape[y][x] != 0 {
            var boardX := p.x + x;
            var boardY := p.y + y;
            if boardY >= 0 && boardY < Height && boardX >= 0 && boardX < Width {
              board := board[boardY := board[boardY][boardX := Block(p.kind)]];
            }
          }
          x := x + 1;
        }
        y := y + 1;
      }
      BoardExt(board, Locked(old(board), p));
    }

    /** Scans rows from the bottom; a complete row is spliced out and an
        empty row put on top, and the same index is examined again. Then the
        cleared rows are scored (`ScoreLines`). */
    method ClearLines() returns (n: nat)
      requires IsBoard(board) && FullCount(board) <= 4
      modifies this`board, this`score, this`lines, this`level, this`cues,
               this`isRunning, this`isPaused, this`timer
      ensures board == Cleared(old(board)) && n == FullCount(old(board))
      ensures score == old(score) + ClearScore(n, old(level))
      ensures lines == old(lines) + n
      ensures var up := LevelsUp(old(lines), old(level), n);
        && level == (if up then LevelFor(lines) else old(level))
        && cues == old(cues) + (if up then [Cue.LevelUp] else [])
        && isRunning == (up || old(isRunning))
        && isPaused == (!up && old(isPaused))
        && timer == (if up then Some(Interval(level)) else old(timer))
    {
      ghost var b0 := board;
      ghost var m := |board|;
      var linesCleared := 0;
      var y := Height as int - 1;
      assert b0[..m] == b0 && b0[m..] == [];
      while y >= 0
        invariant -1 <= y < Height
        invariant 0 <= m <= |b0|
        invariant y + 1 <= linesCleared + m && (m == 0 || y + 1 == linesCleared + m)
        invariant linesCleared == FullCount(b0[m..])
        invariant board == ScanBoard(b0, linesCleared, m)
        modifies this`board
        decreases y + 1 + m
      {
        ScanStep(b0, linesCleared, m, y);
        if Full(board[y]) {
          board := [EmptyRow()] + (board[..y] + board[y + 1..]);
          linesCleared := linesCleared + 1;
          m := m - 1;
          y := y + 1;
        } else if m > 0 {
          m := m - 1;
        }
        y := y - 1;
      }
      ScanDone(b0, linesCleared);
      ScoreLines(linesCleared);
      n := linesCleared;
    }

    /** The scoring tail of line clearing: when rows went, scores them at the
        current level, adds them to the line count and, when the count earns
        a higher level, raises it, requests the level-up cue and restarts the
        game at the new interval. */
    method ScoreLines(linesCleared: nat)
      requires linesCleared <= 4
      modifies this`score, this`lines, this`level, this`cues, this`isRunning, this`isPaused, this`timer
      ensures score == old(score) + ClearScore(linesCleared, old(level))
      ensures lines == old(lines) + linesCleared
      ensures var up := LevelsUp(old(lines), old(level), linesCleared);
        && level == (if up then LevelFor(lines) else old(level))
        && cues == old(cues) + (if up then [Cue.LevelUp] else [])
        && isRunning == (up || old(isRunning))
        && isPaused == (!up && old(isPaused))
        && timer == (if up then Some(Interval(level)) else old(timer))
    {
      if linesCleared > 0 {
        score := score + ClearScore(linesCleared, level);
        lines := lines + linesCleared;
        var newLevel := lines / 10 + 1;
        if newLevel > level {
          level := newLevel;
          cues := cues + [Cue.LevelUp];
          StartGame();
        }
      }
    }

    /** Stops the game and its timer and records a new high score. */
    method GameOver()
      modifies this`isRunning, this`isPaused, this`timer, this`highScore
      ensures !isRunning && !isPaused && timer == None
      ensures highScore == Max(old(highScore), score)
    {
      isRunning := false;
      isPaused := false;
      timer := None;
      var isNewHighScore := SaveHighScore();
    }

    /** Replaces the high score when the current score beats it and says
        whether it did. */
    method SaveHighScore() returns (isNew: bool)
      modifies this`highScore
      ensures isNew == (score > old(highScore))
      ensures highScore == Max(old(highScore), score)
    {
      if score > highScore {
        highScore := score;
        return true;
      }
      return false;
    }

    /** The sequence that follows a landing, shared by the tick and the
        hard drop: lock, clear (requesting the line-clear cue when rows
        went), spawn, and end the game when the new piece does not fit. */
    method SettlePiece(roll: nat)
      requires Valid() && current.Some? && roll < 7
      modifies this
      ensures Valid()
      ensures State() == Settle(old(State()), roll)
    {
      ghost var s := State();
      LandPiece();
      LandedKeepsInv(s);
      SpawnNext(roll);
      SettleKeepsInv(s, roll);
    }

    /** Locks the piece and clears lines, requesting the line-clear cue when
        rows went. */
    method LandPiece()
      requires Valid() && current.Some?
      modifies this
      ensures State() == Landed(old(State()))
    {
      ghost var s := State();
      LockPiece();
      LockedFullRows(s.board, s.current.value);
      var linesCleared := ClearLines();
      if linesCleared > 0 {
        cues := cues + [Cue.LineClear];
      }
    }

    /** Spawns the next piece and ends the game, requesting the game-over
        cue, when it does not fit. */
    method SpawnNext(roll: nat)
      requires IsBoard(board) && roll < 7
      modifies this
      ensures State() == Spawned(old(State()), roll)
    {
      SpawnNewPiece(roll);
      var ok := IsValidPosition(current.value, 0, 0);
      if !ok {
        cues := cues + [Cue.GameOver];
        GameOver();
      }
    }

    /** One tick: nothing while stopped or paused; otherwise the piece moves
        down one row, or, when it cannot, the landing sequence runs. */
    method GameLoop(roll: nat)
      requires Valid() && roll < 7
      modifies this
      ensures Valid()
      ensures !old(isRunning) || old(isPaused) ==> unchanged(this)
      ensures old(isRunning) && !old(isPaused) ==>
        var s := old(State());
        var p := s.current.value;
        State() == if Fits(s.board, p, 0, 1) then s.(current := Some(Shifted(p, 0, 1)))
                   else Settle(s, roll)
    {
      if !isRunning || isPaused {
        return;
      }
      var moved := MovePiece(0, 1);
      if !moved {
        SettlePiece(roll);
      }
    }

    /** Drops the piece as far as it goes, scores two points per row
        fallen, then runs the landing sequence. */
    method HardDrop(roll: nat)
      requires Valid() && roll < 7
      modifies this
      ensures Valid()
      ensures old(current).None? ==> unchanged(this)
      ensures old(current).Some? ==> State() == Settle(Dropped(old(State())), roll)
    {
      if current.None? {
        return;
      }
      ghost var s := State();
      ghost var p := current.value;
      var dropDistance := 0;
      var moved := MovePiece(0, 1);
      while moved
        invariant IsBoard(board) && IsShape(p.shape) && HasCell(p.shape)
        invariant current.Some? && current.value == Shifted(p, 0, dropDistance + (if moved then 1 else 0))
        invariant moved ==> Fits(board, Shifted(p, 0, dropDistance), 0, 1)
        invariant !moved ==> !Fits(board, Shifted(p, 0, dropDistance), 0, 1)
        invariant DropDistance(board, p) == dropDistance + DropDistance(board, Shifted(p, 0, dropDistance))
        modifies this`current
        decreases DropDistance(board, Shifted(p, 0, dropDistance))
      {
        assert Shifted(Shifted(p, 0, dropDistance), 0, 1) == Shifted(p, 0, dropDistance + 1);
        dropDistance := dropDistance + 1;
        moved := MovePiece(0, 1);
      }
      assert DropDistance(board, Shifted(p, 0, dropDistance)) == 0;
      assert dropDistance == DropDistance(s.board, s.current.value);
      score := score + dropDistance * 2;
      DroppedRests(s);
      assert State() == Dropped(s);
      SettlePiece(roll);
    }

    /** Keys act only while the game runs unpaused: left and right move the
        piece (requesting the move cue only when it moved), down moves it one
        row without locking, up rotates; other keys are ignored. */
    method HandleInput(key: string)
      requires Valid()
      modifies this`current, this`cues
      ensures Valid()
      ensures !old(isRunning) || old(isPaused) || KeyCommand(key).None? ==>
        current == old(current) && cues == old(cues)
      ensures old(isRunning) && !old(isPaused) && KeyCommand(key).Some? ==>
        var p := old(current).value;
        match KeyCommand(key).value
        case MoveLeft =>
          if Fits(board, p, -1, 0) then current == Some(Shifted(p, -1, 0)) && cues == old(cues) + [Cue.Move]
          else current == old(current) && cues == old(cues)
        case MoveRight =>
          if Fits(board, p, 1, 0) then current == Some(Shifted(p, 1, 0)) && cues == old(cues) + [Cue.Move]
          else current == old(current) && cues == old(cues)
        case SoftDrop =>
          current == Some(if Fits(board, p, 0, 1) then Shifted(p, 0, 1) else p) && cues == old(cues)
        case RotateClockwise =>
          match RotateAttempt(board, p)
          case Some(q) => current == Some(q) && cues == old(cues) + [Cue.Rotate]
          case None => current == old(current) && cues == old(cues)
    {
      if !isRunning || isPaused {
        return;
      }
      var command := KeyCommand(key);
      if command.None? {
        return;
      }
      match command.value
      case MoveLeft =>
        var moved := MovePiece(-1, 0);
        if moved {
          cues := cues + [Cue.Move];
        }
      case MoveRight =>
        var moved := MovePiece(1, 0);
        if moved {
          cues := cues + [Cue.Move];
        }
      case SoftDrop =>
        var moved := MovePiece(0, 1);
      case RotateClockwise =>
        RotatePiece();
    }
  }
}
