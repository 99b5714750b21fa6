/**
 * The specification side of the Game of Life board: a board is a flat,
 * row-major sequence of bytes of length w * h, cell (x, y) living at index
 * y * w + x. Everything here is a pure function of a board; the buffers that
 * the program updates in place are in module LifeState.
 */
module LifeRules {

  /** A cell of the board, a Rust `u8`. Only 0 (dead) and 1 (alive) are meant. */
  type Byte = bv8

  datatype Option<T> = None | Some(value: T)

  /** The largest value of Rust's `i32`, the type the index arithmetic runs in. */
  const I32Max: int := 0x7fff_ffff

  // ------------------------------------------------------------------
  // Arithmetic helpers
  // ------------------------------------------------------------------

  lemma MulMono(a: int, b: int, c: int)
    requires a <= b && c >= 0
    ensures a * c <= b * c
  {
  }

  /** Column i of the loops covers steps i * h up to i * h + h, all within the board. */
  lemma ColumnSteps(w: int, h: int, i: int)
    requires 0 <= i < w && h >= 0
    ensures 0 <= i * h && i * h + h <= w * h && (i + 1) * h == i * h + h
  {
    MulMono(i + 1, w, h);
  }

  /** Euclidean division is determined by quotient and remainder. */
  lemma DivModUnique(n: int, d: int, q: int, r: int)
    requires d >= 1 && 0 <= r < d && n == q * d + r
    ensures n / d == q && n % d == r
  {
    var q', r' := n / d, n % d;
    if q' > q {
      assert (q' - q) * d == r - r';
      MulMono(1, q' - q, d);
      assert false;
    } else if q' < q {
      assert (q - q') * d == r' - r;
      MulMono(1, q - q', d);
      assert false;
    }
  }

  /** Row-major index arithmetic: cell (x, y) of a w-by-h grid. */
  lemma Compose(w: int, h: int, x: int, y: int)
    requires 0 <= x < w && 0 <= y < h
    ensures 0 <= y * w + x < w * h
    ensures (y * w + x) / w == y && (y * w + x) % w == x
  {
    MulMono(0, y, w);
    MulMono(y + 1, h, w);
    DivModUnique(y * w + x, w, y, x);
  }

  /** Every index of a w-by-h grid is the index of its column and row. */
  lemma Decompose(w: int, h: int, c: int)
    requires w >= 1 && 0 <= c < w * h
    ensures 0 <= c % w < w && 0 <= c / w < h
    ensures c == (c / w) * w + c % w
  {
  }

  // ------------------------------------------------------------------
  // Toroidal indexing (src/state.rs:87-89)
  // ------------------------------------------------------------------

  /** Rust's `%` on signed integers: it truncates toward zero, so the remainder has the sign of `a`. */
  function RustRem(a: int, d: int): (r: int)
    requires d >= 1
    ensures a >= 0 ==> 0 <= r < d
    ensures a < 0 ==> -d < r <= 0
    ensures a >= 0 ==> r == a % d
  {
    if a >= 0 then a % d else -((-a) % d)
  }

  /**
   * The source's wrap `(v + d) % d`, computed with Rust's truncating `%`.
   * Once the offset v is at least -d it is the true (Euclidean) residue of v,
   * so the coordinate lands on the torus.
   */
  function Wrap(v: int, d: int): (r: int)
    requires d >= 1 && v >= -d
    ensures 0 <= r < d
    ensures r == v % d
  {
    DivModUnique(v + d, d, v / d + 1, v % d);
    RustRem(v + d, d)
  }

  /**
   * The index `((y + h) % h) * w + ((x + w) % w)` that check_neighbours reads:
   * the row-major index of the torus cell (x mod w, y mod h), always inside the board.
   */
  function Wrapped(w: int, h: int, x: int, y: int): (r: int)
    requires w >= 1 && h >= 1 && x >= -w && y >= -h
    ensures 0 <= r < w * h
  {
    Compose(w, h, Wrap(x, w), Wrap(y, h));
    Wrap(y, h) * w + Wrap(x, w)
  }

  /** The wrapped index is the index of the torus cell (x mod w, y mod h). */
  lemma WrappedIsTorus(w: int, h: int, x: int, y: int)
    requires w >= 1 && h >= 1 && x >= -w && y >= -h
    ensures Wrapped(w, h, x, y) == (y % h) * w + x % w
    ensures Wrapped(w, h, x, y) % w == x % w && Wrapped(w, h, x, y) / w == y % h
  {
    Compose(w, h, x % w, y % h);
  }

  // ------------------------------------------------------------------
  // Boards and counting
  // ------------------------------------------------------------------

  predicate IsBoard(b: seq<Byte>, w: int, h: int) {
    w >= 1 && h >= 1 && |b| == w * h
  }

  predicate Binary(v: Byte) {
    v == 0 || v == 1
  }

  predicate AllBinary(b: seq<Byte>) {
    forall c :: 0 <= c < |b| ==> Binary(b[c])
  }

  predicate InRange(idx: seq<int>, n: int) {
    forall k :: 0 <= k < |idx| ==> 0 <= idx[k] < n
  }

  /** What one comparison `board[..] == 1` adds to the count. */
  function Live(v: Byte): (r: nat)
    ensures r <= 1 && (r == 1 <==> v == 1)
  {
    if v == 1 then 1 else 0
  }

  /** The number of the listed cells whose byte is 1 (a cell listed twice counts twice). */
  function CountLive(b: seq<Byte>, idx: seq<int>): (r: nat)
    requires InRange(idx, |b|)
    ensures r <= |idx|
    ensures (forall k :: 0 <= k < |idx| ==> b[idx[k]] != 1) ==> r == 0
  {
    if idx == [] then 0 else CountLive(b, idx[..|idx| - 1]) + Live(b[idx[|idx| - 1]])
  }

  lemma {:induction false} CountLiveAppend(b: seq<Byte>, s: seq<int>, t: seq<int>)
    requires InRange(s, |b|) && InRange(t, |b|)
    ensures InRange(s + t, |b|)
    ensures CountLive(b, s + t) == CountLive(b, s) + CountLive(b, t)
  {
    if t != [] {
      assert (s + t)[..|s + t| - 1] == s + t[..|t| - 1];
      CountLiveAppend(b, s, t[..|t| - 1]);
    } else {
      assert s + t == s;
    }
  }

  /**
   * The nine cells that the two inner loops of check_neighbours visit, in their
   * order: x from i - 1 to i + 1 outside, y from j - 1 to j + 1 inside.
   */
  function Window(w: int, h: int, i: nat, j: nat): (r: seq<int>)
    requires w >= 1 && h >= 1
    ensures |r| == 9 && InRange(r, w * h)
  {
    [Wrapped(w, h, i - 1, j - 1), Wrapped(w, h, i - 1, j), Wrapped(w, h, i - 1, j + 1),
     Wrapped(w, h, i, j - 1),     Wrapped(w, h, i, j),     Wrapped(w, h, i, j + 1),
     Wrapped(w, h, i + 1, j - 1), Wrapped(w, h, i + 1, j), Wrapped(w, h, i + 1, j + 1)]
  }

  /** The live cells among the first n of the column x, rows j - 1 to j + 1. */
  function ColumnLive(b: seq<Byte>, w: int, h: int, x: int, j: nat, n: nat): (r: nat)
    requires IsBoard(b, w, h) && x >= -1 && n <= 3
    ensures r <= n
  {
    if n == 0 then 0 else ColumnLive(b, w, h, x, j, n - 1) + Live(b[Wrapped(w, h, x, j - 2 + n)])
  }

  /** The live cells among the first m columns of the window around (i, j). */
  function WindowLive(b: seq<Byte>, w: int, h: int, i: nat, j: nat, m: nat): (r: nat)
    requires IsBoard(b, w, h) && m <= 3
    ensures r <= 3 * m
  {
    if m == 0 then 0 else WindowLive(b, w, h, i, j, m - 1) + ColumnLive(b, w, h, i - 2 + m, j, 3)
  }

  /** The three cells of column x of the window around row j: rows j - 1, j and j + 1. */
  function Column(w: int, h: int, x: int, j: nat): (r: seq<int>)
    requires w >= 1 && h >= 1 && x >= -1
    ensures |r| == 3 && InRange(r, w * h)
  {
    [Wrapped(w, h, x, j - 1), Wrapped(w, h, x, j), Wrapped(w, h, x, j + 1)]
  }

  lemma ColumnLiveIsCount(b: seq<Byte>, w: int, h: int, x: int, j: nat)
    requires IsBoard(b, w, h) && x >= -1
    ensures ColumnLive(b, w, h, x, j, 3) == CountLive(b, Column(w, h, x, j))
  {
    var col := Column(w, h, x, j);
    assert col[..2][..1] == col[..1];
    assert col[..1][..0] == [];
    assert ColumnLive(b, w, h, x, j, 1) == CountLive(b, col[..1]);
    assert ColumnLive(b, w, h, x, j, 2) == CountLive(b, col[..2]);
  }

  /** The column-by-column count is the count over the window. */
  lemma WindowLiveIsCount(b: seq<Byte>, w: int, h: int, i: nat, j: nat)
    requires IsBoard(b, w, h)
    ensures WindowLive(b, w, h, i, j, 3) == CountLive(b, Window(w, h, i, j))
  {
    var c0, c1, c2 := Column(w, h, i - 1, j), Column(w, h, i, j), Column(w, h, i + 1, j);
    ColumnLiveIsCount(b, w, h, i - 1, j);
    ColumnLiveIsCount(b, w, h, i, j);
    ColumnLiveIsCount(b, w, h, i + 1, j);
    assert Window(w, h, i, j) == c0 + c1 + c2;
    CountLiveAppend(b, c0, c1);
    CountLiveAppend(b, c0 + c1, c2);
    assert WindowLive(b, w, h, i, j, 1) == CountLive(b, c0);
    assert WindowLive(b, w, h, i, j, 2) == CountLive(b, c0 + c1);
  }

  /** The eight toroidal neighbours of cell (i, j), the cell itself excluded. */
  function NeighbourCells(w: int, h: int, i: nat, j: nat): (r: seq<int>)
    requires w >= 1 && h >= 1
    ensures |r| == 8 && InRange(r, w * h)
  {
    [Wrapped(w, h, i - 1, j - 1), Wrapped(w, h, i - 1, j), Wrapped(w, h, i - 1, j + 1),
     Wrapped(w, h, i, j - 1),                              Wrapped(w, h, i, j + 1),
     Wrapped(w, h, i + 1, j - 1), Wrapped(w, h, i + 1, j), Wrapped(w, h, i + 1, j + 1)]
  }

  /** The 3x3 window is the eight neighbours with the cell itself in the middle. */
  lemma WindowSplit(b: seq<Byte>, w: int, h: int, i: nat, j: nat)
    requires w >= 1 && h >= 1 && |b| == w * h
    ensures CountLive(b, Window(w, h, i, j)) ==
            CountLive(b, NeighbourCells(w, h, i, j)) + Live(b[Wrapped(w, h, i, j)])
  {
    var nb := NeighbourCells(w, h, i, j);
    var c := Wrapped(w, h, i, j);
    assert Window(w, h, i, j) == nb[..4] + [c] + nb[4..];
    assert nb == nb[..4] + nb[4..];
    CountLiveAppend(b, nb[..4], [c]);
    CountLiveAppend(b, nb[..4] + [c], nb[4..]);
    CountLiveAppend(b, nb[..4], nb[4..]);
  }

  /**
   * Subtracting the cell itself from the live count of its 3x3 toroidal window
   * leaves the number of live cells among its eight toroidal neighbours.
   */
  lemma NeighboursAreEight(b: seq<Byte>, w: int, h: int, c: int)
    requires IsBoard(b, w, h) && 0 <= c < |b|
    ensures 0 <= c / w
    ensures WindowLive(b, w, h, c % w, c / w, 3) - Live(b[c]) ==
            CountLive(b, NeighbourCells(w, h, c % w, c / w))
  {
    Decompose(w, h, c);
    WindowLiveIsCount(b, w, h, c % w, c / w);
    var nb := NeighbourCells(w, h, c % w, c / w);
    assert Wrapped(w, h, c % w, c / w) == c by {
      WrappedIsTorus(w, h, c % w, c / w);
      DivModUnique(c % w, w, 0, c % w);
      DivModUnique(c / w, h, 0, c / w);
    }
    WindowSplit(b, w, h, c % w, c / w);
  }

  /**
   * The neighbour count of check_neighbours for the cell at index c: the live
   * cells of its 3x3 toroidal window, minus one if the cell itself is 1.
   */
  function Neighbours(b: seq<Byte>, w: int, h: int, c: int): (r: int)
    requires IsBoard(b, w, h) && 0 <= c < |b|
    ensures 0 <= r <= 8
  {
    NeighboursAreEight(b, w, h, c);
    WindowLive(b, w, h, c % w, c / w, 3) - Live(b[c])
  }

  /** The neighbour count of cell (i, j), from its window. */
  lemma NeighboursAt(b: seq<Byte>, w: int, h: int, i: int, j: int)
    requires IsBoard(b, w, h) && 0 <= i < w && 0 <= j < h
    ensures 0 <= j * w + i < |b|
    ensures Neighbours(b, w, h, j * w + i) == WindowLive(b, w, h, i, j, 3) - Live(b[j * w + i])
  {
    Compose(w, h, i, j);
  }

  // ------------------------------------------------------------------
  // The transition rule (src/state.rs:97-110)
  // ------------------------------------------------------------------

  /**
   * The match on the cell's byte in check_neighbours. None is the `panic!()`
   * arm, taken for every byte other than 0 and 1.
   */
  function Rule(cell: Byte, n: int): (r: Option<Byte>)
    ensures r.Some? <==> Binary(cell)
    ensures r.Some? ==> Binary(r.value)
    ensures r == Some(1) <==> (cell == 1 && (n == 2 || n == 3)) || (cell == 0 && n == 3)
  {
    if cell == 1 then
      if n < 2 || n > 3 then Some(0) else Some(1)
    else if cell == 0 then
      if n == 3 then Some(1) else Some(0)
    else
      None
  }

  /** The rule applied to the cell at index c of board b. */
  function NextCell(b: seq<Byte>, w: int, h: int, c: int): (r: Option<Byte>)
    requires IsBoard(b, w, h) && 0 <= c < |b|
    ensures r.None? <==> !Binary(b[c])
    ensures r.Some? ==> Binary(r.value)
  {
    Rule(b[c], Neighbours(b, w, h, c))
  }

  /**
   * The values check_neighbours writes into the first k cells: the rule's value,
   * or 0 (never written) where the rule panics.
   */
  function NextPrefix(b: seq<Byte>, w: int, h: int, k: int): (r: seq<Byte>)
    requires IsBoard(b, w, h) && 0 <= k <= |b|
    ensures |r| == k && AllBinary(r)
  {
    if k == 0 then []
    else
      var v := NextCell(b, w, h, k - 1);
      NextPrefix(b, w, h, k - 1) + [if v.Some? then v.value else 0]
  }

  lemma {:induction false} NextPrefixAt(b: seq<Byte>, w: int, h: int, k: int, c: int)
    requires IsBoard(b, w, h) && 0 <= c < k <= |b|
    ensures Binary(b[c]) ==> NextCell(b, w, h, c) == Some(NextPrefix(b, w, h, k)[c])
  {
    if c < k - 1 {
      NextPrefixAt(b, w, h, k - 1, c);
    }
  }

  /** One generation of a board whose cells are all 0 or 1. */
  function NextBoard(b: seq<Byte>, w: int, h: int): (r: seq<Byte>)
    requires IsBoard(b, w, h) && AllBinary(b)
    ensures |r| == |b| && AllBinary(r)
  {
    NextPrefix(b, w, h, |b|)
  }

  /**
   * B3/S23: a cell is alive in the next generation exactly when it was alive
   * with two or three live neighbours, or dead with exactly three; it is dead
   * otherwise.
   */
  lemma NextBoardAt(b: seq<Byte>, w: int, h: int, c: int)
    requires IsBoard(b, w, h) && AllBinary(b) && 0 <= c < |b|
    ensures NextCell(b, w, h, c) == Some(NextBoard(b, w, h)[c])
    ensures NextBoard(b, w, h)[c] == 1 <==>
      (b[c] == 1 && 2 <= Neighbours(b, w, h, c) <= 3) || (b[c] == 0 && Neighbours(b, w, h, c) == 3)
    ensures NextBoard(b, w, h)[c] == 0 <==>
      (b[c] == 1 && (Neighbours(b, w, h, c) < 2 || Neighbours(b, w, h, c) > 3)) ||
      (b[c] == 0 && Neighbours(b, w, h, c) != 3)
  {
    NextPrefixAt(b, w, h, |b|, c);
  }

  /** n generations. */
  function Generations(b: seq<Byte>, w: int, h: int, n: nat): (r: seq<Byte>)
    requires IsBoard(b, w, h) && AllBinary(b)
    ensures |r| == |b| && AllBinary(r)
  {
    if n == 0 then b else NextBoard(Generations(b, w, h, n - 1), w, h)
  }

  // ------------------------------------------------------------------
  // Visit order of the nested `for i in 0..W { for j in 0..H { .. } }` loops
  // ------------------------------------------------------------------

  /** The step at which the loops reach index c: column i = c % w outside, row j = c / w inside. */
  function Pos(w: int, h: int, c: int): (p: int)
    requires w >= 1 && h >= 1 && 0 <= c < w * h
    ensures 0 <= p < w * h
    ensures p / h == c % w && p % h == c / w
  {
    Decompose(w, h, c);
    Compose(h, w, c / w, c % w);
    (c % w) * h + c / w
  }

  /** The index the loops write at step p. */
  function Cell(w: int, h: int, p: int): (c: int)
    requires w >= 1 && h >= 1 && 0 <= p < w * h
    ensures 0 <= c < w * h
    ensures c % w == p / h && c / w == p % h
  {
    Decompose(h, w, p);
    Compose(w, h, p / h, p % h);
    (p % h) * w + p / h
  }

  /** Pos and Cell are inverse bijections between indices and steps. */
  lemma PosCell(w: int, h: int, c: int, p: int)
    requires w >= 1 && h >= 1 && 0 <= c < w * h && 0 <= p < w * h
    ensures Cell(w, h, Pos(w, h, c)) == c
    ensures Pos(w, h, Cell(w, h, p)) == p
  {
    Decompose(w, h, c);
    Decompose(h, w, p);
  }

  /** Step i * h + j of the loops writes index j * w + i. */
  lemma VisitOrder(w: int, h: int, i: int, j: int)
    requires 0 <= i < w && 0 <= j < h
    ensures 0 <= i * h + j < w * h && 0 <= j * w + i < w * h
    ensures Pos(w, h, j * w + i) == i * h + j && Cell(w, h, i * h + j) == j * w + i
  {
    Compose(w, h, i, j);
    Compose(h, w, j, i);
  }

  /**
   * A buffer after the first p steps of one pass of the nested loops that
   * writes target over orig: step q writes the target value of index Cell(q).
   */
  function Written(target: seq<Byte>, orig: seq<Byte>, w: int, h: int, p: int): (r: seq<Byte>)
    requires w >= 1 && h >= 1 && |target| == w * h && |orig| == w * h && 0 <= p <= w * h
    ensures |r| == w * h
  {
    if p == 0 then orig
    else
      var c := Cell(w, h, p - 1);
      Written(target, orig, w, h, p - 1)[c := target[c]]
  }

  /** After p steps the cells visited so far hold their target value, the others their original one. */
  lemma {:induction false} WrittenAt(target: seq<Byte>, orig: seq<Byte>, w: int, h: int, p: int, c: int)
    requires w >= 1 && h >= 1 && |target| == w * h && |orig| == w * h && 0 <= p <= w * h
    requires 0 <= c < w * h
    ensures Written(target, orig, w, h, p)[c] == if Pos(w, h, c) < p then target[c] else orig[c]
  {
    if p > 0 {
      WrittenAt(target, orig, w, h, p - 1, c);
      PosCell(w, h, c, p - 1);
    }
  }

  /** Step i * h + j writes index j * w + i. */
  lemma WrittenStep(target: seq<Byte>, orig: seq<Byte>, w: int, h: int, i: int, j: int)
    requires |target| == w * h && |orig| == w * h && 0 <= i < w && 0 <= j < h
    ensures 0 <= i * h + j < w * h && 0 <= j * w + i < w * h
    ensures Written(target, orig, w, h, i * h + j)[j * w + i := target[j * w + i]] ==
      Written(target, orig, w, h, i * h + j + 1)
  {
    VisitOrder(w, h, i, j);
  }

  /** A pass that has made all w * h steps has written every target value. */
  lemma WrittenAll(target: seq<Byte>, orig: seq<Byte>, w: int, h: int)
    requires w >= 1 && h >= 1 && |target| == w * h && |orig| == w * h
    ensures Written(target, orig, w, h, w * h) == target
  {
    forall c | 0 <= c < w * h
      ensures Written(target, orig, w, h, w * h)[c] == target[c]
    {
      WrittenAt(target, orig, w, h, w * h, c);
    }
  }

  /**
   * t holds the rule's value at every cell of b that is 0 or 1: the values
   * check_neighbours writes.
   */
  ghost predicate IsNextTarget(b: seq<Byte>, w: int, h: int, t: seq<Byte>)
    requires IsBoard(b, w, h)
  {
    |t| == |b| &&
    forall c {:trigger NextCell(b, w, h, c)} :: 0 <= c < |b| && Binary(b[c]) ==> NextCell(b, w, h, c) == Some(t[c])
  }

  lemma NextTarget(b: seq<Byte>, w: int, h: int) returns (t: seq<Byte>)
    requires IsBoard(b, w, h)
    ensures IsNextTarget(b, w, h, t)
  {
    t := NextPrefix(b, w, h, |b|);
    forall c | 0 <= c < |b| && Binary(b[c])
      ensures NextCell(b, w, h, c) == Some(t[c])
    {
      NextPrefixAt(b, w, h, |b|, c);
    }
  }

  /** On a board of zeros and ones the values check_neighbours writes are the next generation. */
  lemma NextTargetIsNext(b: seq<Byte>, w: int, h: int, t: seq<Byte>)
    requires IsBoard(b, w, h) && AllBinary(b) && IsNextTarget(b, w, h, t)
    ensures t == NextBoard(b, w, h)
  {
    forall c | 0 <= c < |b|
      ensures t[c] == NextBoard(b, w, h)[c]
    {
      NextBoardAt(b, w, h, c);
      assert NextCell(b, w, h, c) == Some(t[c]);
    }
  }

  /**
   * buf is orig with the first p steps of check_neighbours done: each index
   * visited so far holds the rule's value for that cell of b, every other
   * index its original value.
   */
  ghost predicate PartialNext(b: seq<Byte>, w: int, h: int, orig: seq<Byte>, buf: seq<Byte>, p: int)
    requires IsBoard(b, w, h)
  {
    |orig| == |b| && |buf| == |b| &&
    forall c :: 0 <= c < |b| ==>
      if Pos(w, h, c) < p then NextCell(b, w, h, c) == Some(buf[c]) else buf[c] == orig[c]
  }

  /** After p steps over cells that are all 0 or 1, the buffer is PartialNext. */
  lemma WrittenPartial(b: seq<Byte>, w: int, h: int, t: seq<Byte>, orig: seq<Byte>, buf: seq<Byte>, p: int)
    requires IsBoard(b, w, h) && IsNextTarget(b, w, h, t) && |orig| == |b| && 0 <= p <= |b|
    requires BinaryBefore(b, w, h, p) && buf == Written(t, orig, w, h, p)
    ensures PartialNext(b, w, h, orig, buf, p)
  {
    forall c | 0 <= c < |b|
      ensures if Pos(w, h, c) < p then NextCell(b, w, h, c) == Some(buf[c]) else buf[c] == orig[c]
    {
      WrittenAt(t, orig, w, h, p, c);
      BinaryBeforeAt(b, w, h, p, c);
    }
  }

  /**
   * The state check_neighbours panics in at step p: the cell of step p is
   * neither 0 nor 1, the cells of all earlier steps are, and buf holds their
   * rule values over orig.
   */
  ghost predicate Panicked(b: seq<Byte>, w: int, h: int, orig: seq<Byte>, buf: seq<Byte>, p: int): (r: bool)
    requires IsBoard(b, w, h)
    ensures r ==> !AllBinary(b) && |buf| == |b|
  {
    0 <= p < |b| && !Binary(b[Cell(w, h, p)]) && BinaryBefore(b, w, h, p) && PartialNext(b, w, h, orig, buf, p)
  }

  /** A step that meets a byte other than 0 or 1 leaves check_neighbours Panicked. */
  lemma PanicStep(b: seq<Byte>, w: int, h: int, t: seq<Byte>, orig: seq<Byte>, buf: seq<Byte>, i: int, j: int)
    requires IsBoard(b, w, h) && IsNextTarget(b, w, h, t) && |orig| == |b| && 0 <= i < w && 0 <= j < h
    requires 0 <= i * h + j < w * h && 0 <= j * w + i < w * h
    requires BinaryBefore(b, w, h, i * h + j) && !Binary(b[j * w + i])
    requires buf == Written(t, orig, w, h, i * h + j)
    ensures Panicked(b, w, h, orig, buf, i * h + j)
  {
    VisitOrder(w, h, i, j);
    WrittenPartial(b, w, h, t, orig, buf, i * h + j);
  }

  /** The cells of the first p steps of the loops are all 0 or 1. */
  predicate BinaryBefore(b: seq<Byte>, w: int, h: int, p: int): (r: bool)
    requires w >= 1 && h >= 1 && |b| == w * h && 0 <= p <= w * h
    ensures AllBinary(b) ==> r
  {
    p == 0 || (BinaryBefore(b, w, h, p - 1) && Binary(b[Cell(w, h, p - 1)]))
  }

  /** Step i * h + j extends BinaryBefore when its cell is 0 or 1. */
  lemma BinaryStep(b: seq<Byte>, w: int, h: int, i: int, j: int)
    requires |b| == w * h && 0 <= i < w && 0 <= j < h
    requires 0 <= i * h + j < w * h && 0 <= j * w + i < w * h
    requires BinaryBefore(b, w, h, i * h + j) && Binary(b[j * w + i])
    ensures BinaryBefore(b, w, h, i * h + j + 1)
  {
    VisitOrder(w, h, i, j);
  }

  lemma {:induction false} BinaryBeforeAt(b: seq<Byte>, w: int, h: int, p: int, c: int)
    requires w >= 1 && h >= 1 && |b| == w * h && 0 <= p <= w * h && 0 <= c < w * h
    ensures BinaryBefore(b, w, h, p) && Pos(w, h, c) < p ==> Binary(b[c])
  {
    if p > 0 {
      BinaryBeforeAt(b, w, h, p - 1, c);
      PosCell(w, h, c, p - 1);
    }
  }

  /** All w * h steps have seen only zeros and ones exactly when the whole board is. */
  lemma {:induction false} BinaryBeforeAll(b: seq<Byte>, w: int, h: int, p: int)
    requires w >= 1 && h >= 1 && |b| == w * h && 0 <= p <= w * h
    ensures AllBinary(b) ==> BinaryBefore(b, w, h, p)
    ensures BinaryBefore(b, w, h, w * h) ==> AllBinary(b)
  {
    if p > 0 {
      BinaryBeforeAll(b, w, h, p - 1);
    }
    forall c | 0 <= c < w * h
      ensures BinaryBefore(b, w, h, w * h) ==> Binary(b[c])
    {
      BinaryBeforeAt(b, w, h, w * h, c);
    }
  }

  // ------------------------------------------------------------------
  // Initial and random boards
  // ------------------------------------------------------------------

  /** The byte that `rng.gen::<bool>() as u8` gives. */
  function BitByte(bit: bool): (v: Byte)
    ensures Binary(v) && (v == 1 <==> bit)
  {
    if bit then 1 else 0
  }

  /** State::new pushes one draw per step, so the k-th draw lands at index k. */
  function InitialBoard(bits: seq<bool>, n: nat): (r: seq<Byte>)
    requires |bits| >= n
    ensures |r| == n && AllBinary(r)
    ensures forall k :: 0 <= k < n ==> (r[k] == 1 <==> bits[k])
  {
    seq(n, k requires 0 <= k < n => BitByte(bits[k]))
  }

  /** randomize writes the draw of step Pos(c) at index c. */
  function RandomBoard(bits: seq<bool>, w: int, h: int): (r: seq<Byte>)
    requires w >= 1 && h >= 1 && |bits| >= w * h
    ensures |r| == w * h && AllBinary(r)
  {
    seq(w * h, c requires 0 <= c < w * h => BitByte(bits[Pos(w, h, c)]))
  }

  /** A buffer after the first p steps of randomize: step q writes draw q at index Cell(q). */
  function Drawn(bits: seq<bool>, orig: seq<Byte>, w: int, h: int, p: int): (r: seq<Byte>)
    requires w >= 1 && h >= 1 && |bits| >= w * h && |orig| == w * h && 0 <= p <= w * h
    ensures |r| == w * h
  {
    if p == 0 then orig
    else Drawn(bits, orig, w, h, p - 1)[Cell(w, h, p - 1) := BitByte(bits[p - 1])]
  }

  lemma {:induction false} DrawnAt(bits: seq<bool>, orig: seq<Byte>, w: int, h: int, p: int, c: int)
    requires w >= 1 && h >= 1 && |bits| >= w * h && |orig| == w * h && 0 <= p <= w * h
    requires 0 <= c < w * h
    ensures Drawn(bits, orig, w, h, p)[c] == if Pos(w, h, c) < p then BitByte(bits[Pos(w, h, c)]) else orig[c]
  {
    if p > 0 {
      DrawnAt(bits, orig, w, h, p - 1, c);
      PosCell(w, h, c, p - 1);
    }
  }

  /** Step i * h + j of randomize writes draw i * h + j at index j * w + i. */
  lemma DrawnStep(bits: seq<bool>, orig: seq<Byte>, w: int, h: int, i: int, j: int)
    requires |bits| >= w * h && |orig| == w * h && 0 <= i < w && 0 <= j < h
    ensures 0 <= i * h + j < w * h && 0 <= j * w + i < w * h
    ensures Drawn(bits, orig, w, h, i * h + j)[j * w + i := BitByte(bits[i * h + j])] ==
      Drawn(bits, orig, w, h, i * h + j + 1)
  {
    VisitOrder(w, h, i, j);
  }

  /** All w * h steps of randomize give the random board, whatever the buffer held before. */
  lemma DrawnAll(bits: seq<bool>, orig: seq<Byte>, w: int, h: int)
    requires w >= 1 && h >= 1 && |bits| >= w * h && |orig| == w * h
    ensures Drawn(bits, orig, w, h, w * h) == RandomBoard(bits, w, h)
  {
    forall c | 0 <= c < w * h
      ensures Drawn(bits, orig, w, h, w * h)[c] == RandomBoard(bits, w, h)[c]
    {
      DrawnAt(bits, orig, w, h, w * h, c);
    }
  }

  /** Cell (i, j) of a randomized board is alive exactly when draw i * h + j was true. */
  lemma RandomBoardAt(bits: seq<bool>, w: int, h: int, i: int, j: int)
    requires |bits| >= w * h && 0 <= i < w && 0 <= j < h
    ensures 0 <= j * w + i < w * h && 0 <= i * h + j < w * h
    ensures RandomBoard(bits, w, h)[j * w + i] == 1 <==> bits[i * h + j]
  {
    VisitOrder(w, h, i, j);
  }

  // ------------------------------------------------------------------
  // Toggling (src/state.rs:76-78)
  // ------------------------------------------------------------------

  /** The board after `board[k] ^= 1`. */
  function Toggled(b: seq<Byte>, k: int): (r: seq<Byte>)
    requires 0 <= k < |b|
    ensures |r| == |b|
    ensures forall c :: 0 <= c < |b| && c != k ==> r[c] == b[c]
    ensures b[k] == 0 <==> r[k] == 1
    ensures b[k] == 1 <==> r[k] == 0
    ensures Binary(b[k]) <==> Binary(r[k])
  {
    b[k := b[k] ^ 1]
  }

  /** Toggling the same cell twice gives the original board back. */
  lemma ToggleTwice(b: seq<Byte>, k: int)
    requires 0 <= k < |b|
    ensures Toggled(Toggled(b, k), k) == b
  {
  }

  /** Toggling keeps a board of zeros and ones a board of zeros and ones. */
  lemma ToggleBinary(b: seq<Byte>, k: int)
    requires 0 <= k < |b| && AllBinary(b)
    ensures AllBinary(Toggled(b, k))
  {
  }

  // ------------------------------------------------------------------
  // Properties of the rule
  // ------------------------------------------------------------------

  /** The corner (0, 0) is adjacent to the last column, the last row and the opposite corner. */
  lemma CornerWraps(w: int, h: int)
    requires w >= 1 && h >= 1
    ensures NeighbourCells(w, h, 0, 0)[0] == (h - 1) * w + (w - 1)
    ensures NeighbourCells(w, h, 0, 0)[1] == w - 1
    ensures NeighbourCells(w, h, 0, 0)[3] == (h - 1) * w
  {
    DivModUnique(-1, w, -1, w - 1);
    DivModUnique(-1, h, -1, h - 1);
    DivModUnique(0, w, 0, 0);
    DivModUnique(0, h, 0, 0);
  }

  predicate AllDead(b: seq<Byte>) {
    forall k :: 0 <= k < |b| ==> b[k] == 0
  }

  /** A board with no live cell has no births: it stays dead. */
  lemma DeadStaysDead(b: seq<Byte>, w: int, h: int)
    requires IsBoard(b, w, h) && AllDead(b)
    ensures AllDead(NextBoard(b, w, h))
  {
    forall c | 0 <= c < |b|
      ensures NextBoard(b, w, h)[c] == 0
    {
      NextBoardAt(b, w, h, c);
      NeighboursAreEight(b, w, h, c);
    }
  }

  /** ... for any number of generations. */
  lemma {:induction false} DeadForever(b: seq<Byte>, w: int, h: int, n: nat)
    requires IsBoard(b, w, h) && AllDead(b)
    ensures AllDead(Generations(b, w, h, n))
  {
    if n > 0 {
      DeadForever(b, w, h, n - 1);
      DeadStaysDead(Generations(b, w, h, n - 1), w, h);
    }
  }
}
