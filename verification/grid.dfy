/**
 * Boards, per-cell fields and the 3 x 3 neighbourhood shared by every
 * variant of the evolvable Game of Life engine.
 *
 * A board is a rectangular grid of live (true) and dead (false) cells;
 * NumPy's 0/1 integer boards are modelled as booleans. A field carries one
 * per-cell value (a threshold, a damage) and has the shape of its board.
 */
module Grid {

  type Board = seq<seq<bool>>

  type Field<T> = seq<seq<T>>

  /** The position of a cell: (row, column). */
  type Pos = (nat, nat)

  /** `f` has exactly `rows` rows of `cols` entries each. */
  predicate Shaped<T>(f: Field<T>, rows: nat, cols: nat)
  {
    |f| == rows && forall x :: 0 <= x < rows ==> |f[x]| == cols
  }

  /** A board as NumPy's `shape` unpacks it: at least one row, all rows equally long. */
  predicate Rect<T>(f: Field<T>)
  {
    |f| > 0 && Shaped(f, |f|, |f[0]|)
  }

  /** `np.full((rows, cols), v)` and `np.zeros`. */
  function Filled<T>(rows: nat, cols: nat, v: T): (f: Field<T>)
    ensures Shaped(f, rows, cols)
    ensures forall x, y :: 0 <= x < rows && 0 <= y < cols ==> f[x][y] == v
  {
    seq(rows, _ => seq(cols, _ => v))
  }

  /** The element assignment `f[i, j] = v`. */
  function Set2<T>(f: Field<T>, i: nat, j: nat, v: T): (g: Field<T>)
    requires i < |f| && j < |f[i]|
    ensures |g| == |f| && forall x :: 0 <= x < |f| ==> |g[x]| == |f[x]|
    ensures forall x, y :: 0 <= x < |f| && 0 <= y < |f[x]| ==>
              g[x][y] == if x == i && y == j then v else f[x][y]
  {
    f[i := f[i][j := v]]
  }

  /** Two fields of one shape that agree cell by cell are equal. */
  lemma FieldExt<T>(f: Field<T>, g: Field<T>, rows: nat, cols: nat)
    requires Shaped(f, rows, cols) && Shaped(g, rows, cols)
    requires forall x, y :: 0 <= x < rows && 0 <= y < cols ==> f[x][y] == g[x][y]
    ensures f == g
  {
    forall x | 0 <= x < rows
      ensures f[x] == g[x]
    {
      assert forall y :: 0 <= y < cols ==> f[x][y] == g[x][y];
    }
  }

  function Bit(alive: bool): nat
  {
    if alive then 1 else 0
  }

  /**
   * (i, j) lies strictly inside the one-cell border of a rows x cols board;
   * the evolvable engines only ever update these cells.
   */
  predicate Interior(rows: nat, cols: nat, i: int, j: int)
  {
    1 <= i < rows - 1 && 1 <= j < cols - 1
  }

  /** An interior cell of a rectangular board. */
  predicate InteriorOf(b: Board, i: int, j: int)
  {
    Rect(b) && Interior(|b|, |b[0]|, i, j)
  }

  /** `p` is one of the eight Moore neighbours of (i, j). */
  predicate IsNeighbor(p: Pos, i: int, j: int)
  {
    i - 1 <= p.0 <= i + 1 && j - 1 <= p.1 <= j + 1 && (p.0 != i || p.1 != j)
  }

  /** `np.sum(board[i-1:i+2, j-1:j+2])`: the live cells of the 3 x 3 window. */
  function WindowSum(b: Board, i: nat, j: nat): nat
    requires InteriorOf(b, i, j)
  {
    Bit(b[i - 1][j - 1]) + Bit(b[i - 1][j]) + Bit(b[i - 1][j + 1]) +
    Bit(b[i][j - 1]) + Bit(b[i][j]) + Bit(b[i][j + 1]) +
    Bit(b[i + 1][j - 1]) + Bit(b[i + 1][j]) + Bit(b[i + 1][j + 1])
  }

  /**
   * The number of live Moore neighbours of an interior cell, computed as the
   * engines do: the window sum minus the cell itself.
   */
  function NeighborCount(b: Board, i: nat, j: nat): (n: nat)
    requires InteriorOf(b, i, j)
    ensures n <= 8
    ensures n == WindowSum(b, i, j) - Bit(b[i][j])
  {
    Bit(b[i - 1][j - 1]) + Bit(b[i - 1][j]) + Bit(b[i - 1][j + 1]) +
    Bit(b[i][j - 1]) + Bit(b[i][j + 1]) +
    Bit(b[i + 1][j - 1]) + Bit(b[i + 1][j]) + Bit(b[i + 1][j + 1])
  }

  /** (x, j-1), (x, j) and (x, j+1), left to right. */
  function RowAt(x: nat, j: nat): (cs: seq<Pos>)
    requires 1 <= j
    ensures forall p: Pos :: p in cs <==> p.0 == x && j - 1 <= p.1 <= j + 1
  {
    var cs := [(x, j - 1), (x, j), (x, j + 1)];
    forall p: Pos | p.0 == x && j - 1 <= p.1 <= j + 1
      ensures p in cs
    {
      assert p == (p.0, p.1);
    }
    cs
  }

  /** (i, j-1) and (i, j+1): the cell's own row without the cell. */
  function BesideAt(i: nat, j: nat): (cs: seq<Pos>)
    requires 1 <= j
    ensures forall p: Pos :: p in cs <==> p.0 == i && (p.1 == j - 1 || p.1 == j + 1)
  {
    var cs := [(i, j - 1), (i, j + 1)];
    forall p: Pos | p.0 == i && (p.1 == j - 1 || p.1 == j + 1)
      ensures p in cs
    {
      assert p == (p.0, p.1);
    }
    cs
  }

  /**
   * The eight Moore neighbours of (i, j) in the order the engines' list
   * comprehension visits them: row by row, column by column, skipping (i, j).
   */
  function Around(i: nat, j: nat): (cs: seq<Pos>)
    requires 1 <= i && 1 <= j
    ensures forall p: Pos :: p in cs <==> IsNeighbor(p, i, j)
  {
    RowAt(i - 1, j) + BesideAt(i, j) + RowAt(i + 1, j)
  }

  /** Every position of `cs` lies on the board. */
  predicate OnBoard(b: Board, cs: seq<Pos>)
  {
    forall k :: 0 <= k < |cs| ==> cs[k].0 < |b| && cs[k].1 < |b[cs[k].0]|
  }

  /** The number of live cells among the positions `cs`. */
  function LiveCount(b: Board, cs: seq<Pos>): nat
    requires OnBoard(b, cs)
  {
    if cs == [] then 0 else Bit(b[cs[0].0][cs[0].1]) + LiveCount(b, cs[1..])
  }

  /** The comprehension's filter `if board[x, y] == 1`: the live entries of `cs`, in order. */
  function LiveAmong(b: Board, cs: seq<Pos>): (ps: seq<Pos>)
    requires OnBoard(b, cs)
    ensures |ps| == LiveCount(b, cs)
    ensures forall p: Pos :: p in ps <==> p in cs && b[p.0][p.1]
  {
    if cs == [] then []
    else
      var rest := LiveAmong(b, cs[1..]);
      assert forall p: Pos :: p in cs <==> p == cs[0] || p in cs[1..];
      if b[cs[0].0][cs[0].1] then [cs[0]] + rest else rest
  }

  /** Counting distributes over concatenation. */
  lemma {:induction false} LiveCountAppend(b: Board, xs: seq<Pos>, ys: seq<Pos>)
    requires OnBoard(b, xs) && OnBoard(b, ys)
    ensures OnBoard(b, xs + ys)
    ensures LiveCount(b, xs + ys) == LiveCount(b, xs) + LiveCount(b, ys)
    decreases |xs|
  {
    if xs == [] {
      assert xs + ys == ys;
    } else {
      assert (xs + ys)[1..] == xs[1..] + ys;
      LiveCountAppend(b, xs[1..], ys);
    }
  }

  /** The live cells among three neighbouring cells of one row. */
  lemma RowAtCount(b: Board, x: nat, j: nat)
    requires x < |b| && 1 <= j && j + 1 < |b[x]|
    ensures OnBoard(b, RowAt(x, j))
    ensures LiveCount(b, RowAt(x, j)) == Bit(b[x][j - 1]) + Bit(b[x][j]) + Bit(b[x][j + 1])
  {
    var cs := RowAt(x, j);
    var last: seq<Pos> := [(x, j + 1)];
    assert last[1..] == [];
    assert LiveCount(b, last) == Bit(b[x][j + 1]);
    assert cs[1..] == [(x, j)] + last;
    assert cs[1..][1..] == last;
    assert LiveCount(b, cs[1..]) == Bit(b[x][j]) + LiveCount(b, last);
  }

  /** The live cells beside a cell in its own row. */
  lemma BesideAtCount(b: Board, i: nat, j: nat)
    requires i < |b| && 1 <= j && j + 1 < |b[i]|
    ensures OnBoard(b, BesideAt(i, j))
    ensures LiveCount(b, BesideAt(i, j)) == Bit(b[i][j - 1]) + Bit(b[i][j + 1])
  {
    var cs := BesideAt(i, j);
    var last: seq<Pos> := [(i, j + 1)];
    assert last[1..] == [];
    assert LiveCount(b, last) == Bit(b[i][j + 1]);
    assert cs[1..] == last;
  }

  /** Counting the live cells among `Around(i, j)` is the engines' neighbour count. */
  lemma AroundCount(b: Board, i: nat, j: nat)
    requires InteriorOf(b, i, j)
    ensures OnBoard(b, Around(i, j))
    ensures LiveCount(b, Around(i, j)) == NeighborCount(b, i, j)
  {
    assert |b[i - 1]| == |b[i]| == |b[i + 1]| == |b[0]|;
    var top, beside, bottom := RowAt(i - 1, j), BesideAt(i, j), RowAt(i + 1, j);
    RowAtCount(b, i - 1, j);
    BesideAtCount(b, i, j);
    RowAtCount(b, i + 1, j);
    LiveCountAppend(b, top, beside);
    LiveCountAppend(b, top + beside, bottom);
    assert Around(i, j) == top + beside + bottom;
  }

  /**
   * The list comprehension of live neighbours, in the order the engines build
   * it. It holds one entry per live neighbour, and exactly the live Moore
   * neighbours.
   */
  function LiveNeighbors(b: Board, i: nat, j: nat): (ps: seq<Pos>)
    requires InteriorOf(b, i, j)
    ensures |ps| == NeighborCount(b, i, j)
    ensures forall p: Pos :: p in ps <==> IsNeighbor(p, i, j) && b[p.0][p.1]
  {
    AroundCount(b, i, j);
    LiveAmong(b, Around(i, j))
  }

  /** The live cells of one row: at most its length, and zero exactly when every cell is dead. */
  function RowPopulation(row: seq<bool>): (n: nat)
    ensures n <= |row|
    ensures n == 0 <==> forall y :: 0 <= y < |row| ==> !row[y]
  {
    if row == [] then 0
    else
      assert forall y :: 1 <= y < |row| ==> row[y] == row[1..][y - 1];
      Bit(row[0]) + RowPopulation(row[1..])
  }

  /** `np.sum(board)`: the number of live cells, zero exactly on an all-dead board. */
  function Population(b: Board): (n: nat)
    ensures n == 0 <==> forall x, y :: 0 <= x < |b| && 0 <= y < |b[x]| ==> !b[x][y]
  {
    if b == [] then 0
    else
      assert forall x :: 1 <= x < |b| ==> b[x] == b[1..][x - 1];
      RowPopulation(b[0]) + Population(b[1..])
  }
}
