/**
 * The simulation state of the program: two flat byte buffers of the same size,
 * the board that is shown and the board the next generation is written into,
 * and the pause flag. The methods are the source's loops over these buffers;
 * each is specified by the functions of module LifeRules.
 */
module LifeState {
  import opened LifeRules

  /** The keys that key_down_event reacts to; every other key is Other. */
  datatype Key = Space | Escape | Key5 | Other

  /**
   * A bound on the board sizes that is enough for no index expression of
   * check_neighbours, update_state and randomize to leave Rust's i32: the
   * largest intermediate values are (y + h) <= 2h, (x + w) <= 2w and
   * y * w + x < w * h. Some larger sizes would also stay inside i32.
   */
  predicate FitsI32(w: int, h: int) {
    w * h + w + h <= I32Max
  }

  /**
   * The loop of State::new: draw k is pushed onto both vectors, so it lands
   * at index k of each.
   */
  method PushDraws(cur: array<Byte>, next: array<Byte>, bits: seq<bool>)
    requires cur != next && cur.Length == next.Length && |bits| >= cur.Length
    modifies cur, next
    ensures cur[..] == InitialBoard(bits, cur.Length) && next[..] == cur[..]
  {
    for k := 0 to cur.Length
      invariant forall c :: 0 <= c < k ==> cur[c] == BitByte(bits[c]) && next[c] == cur[c]
    {
      var oneOrZero := BitByte(bits[k]);
      cur[k] := oneOrZero;
      next[k] := oneOrZero;
    }
  }

  class State {
    /** GRID_SIZE: the number of columns and rows. */
    const w: nat
    const h: nat
    /** The generation that is shown. */
    var board: array<Byte>
    /** The buffer check_neighbours writes the next generation into. */
    var boardNext: array<Byte>
    var paused: bool

    ghost predicate Valid()
      reads this
    {
      w >= 1 && h >= 1 && FitsI32(w, h) &&
      board.Length == w * h && boardNext.Length == w * h && board != boardNext
    }

    /**
     * The states the program can reach: every cell of the shown board is 0 or
     * 1, so the panic arm of check_neighbours cannot fire.
     */
    ghost predicate Reachable()
      reads this, board
    {
      Valid() && AllBinary(board[..])
    }

    /**
     * The board part of State::new: one random draw per cell, pushed onto both
     * buffers in the order of the draws, and the simulation starts paused.
     */
    constructor (width: nat, height: nat, bits: seq<bool>)
      requires width >= 1 && height >= 1 && FitsI32(width, height)
      requires |bits| >= width * height
      ensures Valid() && fresh(board) && fresh(boardNext)
      ensures Reachable()
      ensures w == width && h == height && paused
      ensures board[..] == InitialBoard(bits, w * h) && boardNext[..] == board[..]
    {
      w, h := width, height;
      var cur := new Byte[width * height];
      var next := new Byte[width * height];
      PushDraws(cur, next, bits);
      board, boardNext, paused := cur, next, true;
    }

    /**
     * toggle_cell: `board[y * W + x] ^= 1` flips the lowest bit of one cell and
     * touches nothing else. An index past the end makes Rust's indexing panic,
     * reported here as outOfBounds with the board untouched.
     */
    method ToggleCell(x: nat, y: nat) returns (outOfBounds: bool)
      requires Valid()
      modifies board
      ensures outOfBounds <==> y * w + x >= w * h
      ensures x < w && y < h ==> !outOfBounds
      ensures !outOfBounds ==> board[..] == Toggled(old(board[..]), y * w + x)
      ensures outOfBounds ==> board[..] == old(board[..])
      ensures unchanged(boardNext)
      ensures old(Reachable()) ==> Reachable()
    {
      if x < w && y < h {
        Compose(w, h, x, y);
      }
      var k := y * w + x;
      if k >= board.Length {
        return true;
      }
      ghost var before := board[..];
      board[k] := board[k] ^ 1;
      if AllBinary(before) {
        ToggleBinary(before, k);
      }
      return false;
    }

    /**
     * The two inner loops of check_neighbours: the number of 1s in the 3x3
     * toroidal window around cell (i, j), the cell itself included.
     */
    method CountWindow(i: nat, j: nat) returns (count: int)
      requires Valid() && i < w && j < h
      ensures count == WindowLive(board[..], w, h, i, j, 3)
      ensures count == CountLive(board[..], Window(w, h, i, j))
    {
      count := 0;
      for x := i - 1 to i + 2
        invariant count == WindowLive(board[..], w, h, i, j, x - i + 1)
      {
        for y := j - 1 to j + 2
          invariant count == WindowLive(board[..], w, h, i, j, x - i + 1) + ColumnLive(board[..], w, h, x, j, y - j + 1)
        {
          if board[Wrapped(w, h, x, y)] == 1 {
            count := count + 1;
          }
        }
      }
      WindowLiveIsCount(board[..], w, h, i, j);
    }

    /**
     * The body of check_neighbours for cell (i, j): the neighbour count (the
     * window's count minus the cell itself) and the match on the cell's byte.
     * None is the `panic!()` arm.
     */
    method CellRule(i: nat, j: nat, ghost t: seq<Byte>) returns (next: Option<Byte>)
      requires Valid() && i < w && j < h && IsNextTarget(board[..], w, h, t)
      ensures 0 <= j * w + i < w * h
      ensures next.Some? <==> Binary(board[j * w + i])
      ensures next.Some? ==> next.value == t[j * w + i]
    {
      NeighboursAt(board[..], w, h, i, j);
      var coords := j * w + i;
      var count := CountWindow(i, j);
      if board[coords] == 1 {
        count := count - 1;
      }
      if board[coords] == 1 {
        next := Some(1);
        if count < 2 || count > 3 {
          next := Some(0);
        }
      } else if board[coords] == 0 {
        next := Some(0);
        if count == 3 {
          next := Some(1);
        }
      } else {
        next := None;
      }
      assert next == NextCell(board[..], w, h, coords);
    }

    /**
     * check_neighbours: writes the next generation of board into boardNext,
     * cell by cell in the order of its loops, and reads board only. A byte
     * other than 0 or 1 reaches the `panic!()` arm: the result is then the
     * step at which that happened, and only the steps before it have written
     * their cell.
     */
    method CheckNeighbours() returns (panicAt: Option<nat>)
      requires Valid()
      modifies boardNext
      ensures unchanged(board)
      ensures panicAt.None? <==> AllBinary(board[..])
      ensures panicAt.None? ==> boardNext[..] == NextBoard(board[..], w, h)
      ensures panicAt.Some? ==> Panicked(board[..], w, h, old(boardNext[..]), boardNext[..], panicAt.value)
    {
      ghost var cur, orig := board[..], boardNext[..];
      ghost var target := NextTarget(cur, w, h);
      for i := 0 to w
        invariant 0 <= i * h <= w * h
        invariant boardNext[..] == Written(target, orig, w, h, i * h)
        invariant BinaryBefore(cur, w, h, i * h)
      {
        ColumnSteps(w, h, i);
        panicAt := CheckColumn(i, target, orig);
        if panicAt.Some? {
          return;
        }
      }
      WrittenAll(target, orig, w, h);
      BinaryBeforeAll(cur, w, h, w * h);
      NextTargetIsNext(cur, w, h, target);
      return None;
    }

    /**
     * One turn of the outer loop of check_neighbours: column i, rows 0 to h - 1,
     * continuing a pass that writes target over orig.
     */
    method CheckColumn(i: nat, ghost target: seq<Byte>, ghost orig: seq<Byte>) returns (panicAt: Option<nat>)
      requires Valid() && i < w && IsNextTarget(board[..], w, h, target) && |orig| == w * h
      requires 0 <= i * h && i * h + h <= w * h
      requires boardNext[..] == Written(target, orig, w, h, i * h) && BinaryBefore(board[..], w, h, i * h)
      modifies boardNext
      ensures panicAt.None? ==>
        boardNext[..] == Written(target, orig, w, h, i * h + h) && BinaryBefore(board[..], w, h, i * h + h)
      ensures panicAt.Some? ==> Panicked(board[..], w, h, orig, boardNext[..], panicAt.value)
    {
      for j := 0 to h
        invariant boardNext[..] == Written(target, orig, w, h, i * h + j)
        invariant BinaryBefore(board[..], w, h, i * h + j)
      {
        var coords := j * w + i;
        var next := CellRule(i, j, target);
        if next.None? {
          PanicStep(board[..], w, h, target, orig, boardNext[..], i, j);
          return Some(i * h + j);
        }
        BinaryStep(board[..], w, h, i, j);
        WrittenStep(target, orig, w, h, i, j);
        boardNext[coords] := next.value;
      }
      return None;
    }

    /** update_state: copies boardNext into board, cell by cell. */
    method UpdateState()
      requires Valid()
      modifies board
      ensures board[..] == boardNext[..]
      ensures unchanged(boardNext)
    {
      ghost var orig, target := board[..], boardNext[..];
      for i := 0 to w
        invariant 0 <= i * h <= w * h
        invariant board[..] == Written(target, orig, w, h, i * h)
      {
        ColumnSteps(w, h, i);
        for j := 0 to h
          invariant board[..] == Written(target, orig, w, h, i * h + j)
        {
          WrittenStep(target, orig, w, h, i, j);
          var coords := j * w + i;
          board[coords] := boardNext[coords];
        }
      }
      WrittenAll(target, orig, w, h);
    }

    /**
     * randomize: one draw per cell, in the order of the loops, written to the
     * same index of both buffers.
     */
    method Randomize(bits: seq<bool>)
      requires Valid() && |bits| >= w * h
      modifies board, boardNext
      ensures board[..] == RandomBoard(bits, w, h)
      ensures boardNext[..] == board[..]
    {
      ghost var orig, origNext := board[..], boardNext[..];
      for i := 0 to w
        invariant 0 <= i * h <= w * h
        invariant board[..] == Drawn(bits, orig, w, h, i * h)
        invariant boardNext[..] == Drawn(bits, origNext, w, h, i * h)
      {
        ColumnSteps(w, h, i);
        for j := 0 to h
          invariant board[..] == Drawn(bits, orig, w, h, i * h + j)
          invariant boardNext[..] == Drawn(bits, origNext, w, h, i * h + j)
        {
          DrawnStep(bits, orig, w, h, i, j);
          DrawnStep(bits, origNext, w, h, i, j);
          var alive := BitByte(bits[i * h + j]);
          board[j * w + i] := alive;
          boardNext[j * w + i] := alive;
        }
      }
      DrawnAll(bits, orig, w, h);
      DrawnAll(bits, origNext, w, h);
    }

    /**
     * One pass of the loop in update: unless paused, check_neighbours and then
     * update_state. A panic in check_neighbours ends the pass before
     * update_state.
     */
    method Tick() returns (panicked: bool)
      requires Valid()
      modifies board, boardNext
      ensures old(paused) ==> !panicked && unchanged(board) && unchanged(boardNext)
      ensures !paused ==> (panicked <==> !AllBinary(old(board[..])))
      ensures panicked ==> unchanged(board)
      ensures !paused && !panicked ==>
        board[..] == NextBoard(old(board[..]), w, h) && boardNext[..] == board[..]
      ensures old(Reachable()) ==> !panicked && Reachable()
    {
      panicked := false;
      if !paused {
        var panicAt := CheckNeighbours();
        if panicAt.Some? {
          panicked := true;
        } else {
          UpdateState();
        }
      }
    }

    /**
     * update: `ticks` is the number of times the frame timer grants a step.
     * While not paused each step advances the board by one generation; an
     * unpaused step on a board holding a byte other than 0 or 1 panics.
     */
    method Update(ticks: nat) returns (panicked: bool)
      requires Valid()
      modifies board, boardNext
      ensures old(paused) ==> !panicked && board[..] == old(board[..]) && boardNext[..] == old(boardNext[..])
      ensures ticks == 0 ==> !panicked && board[..] == old(board[..]) && boardNext[..] == old(boardNext[..])
      ensures !paused && AllBinary(old(board[..])) ==>
        !panicked && board[..] == Generations(old(board[..]), w, h, ticks)
      ensures !paused && !AllBinary(old(board[..])) ==>
        board[..] == old(board[..]) && (panicked <==> ticks > 0)
      ensures !paused && !panicked && ticks > 0 ==> boardNext[..] == board[..]
      ensures old(Reachable()) ==> !panicked && Reachable()
    {
      ghost var start := board[..];
      panicked := false;
      var n := 0;
      while n < ticks && !panicked
        invariant 0 <= n <= ticks
        invariant n == 0 ==> !panicked && board[..] == start && boardNext[..] == old(boardNext[..])
        invariant paused ==> !panicked && board[..] == start && boardNext[..] == old(boardNext[..])
        invariant !paused && AllBinary(start) ==> !panicked && board[..] == Generations(start, w, h, n)
        invariant !paused && !AllBinary(start) ==> board[..] == start && (panicked <==> n > 0)
        invariant !paused && !panicked && n > 0 ==> boardNext[..] == board[..]
      {
        panicked := Tick();
        n := n + 1;
      }
    }

    /**
     * key_down_event: Space flips the pause flag, the 5 key randomizes the
     * board from `bits`, Escape asks the framework to quit (the result).
     */
    method KeyDown(key: Key, bits: seq<bool>) returns (quit: bool)
      requires Valid() && |bits| >= w * h
      modifies this`paused, board, boardNext
      ensures quit <==> key == Escape
      ensures paused == if key == Space then !old(paused) else old(paused)
      ensures key == Key5 ==> board[..] == RandomBoard(bits, w, h) && boardNext[..] == board[..]
      ensures key != Key5 ==> unchanged(board) && unchanged(boardNext)
      ensures old(Reachable()) ==> Reachable()
    {
      quit := false;
      match key
      case Space => paused := !paused;
      case Escape => quit := true;
      case Key5 => Randomize(bits);
      case Other =>
    }
  }
}
