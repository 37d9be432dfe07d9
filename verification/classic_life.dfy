/**
 * The classic fixed-rule Game of Life of base_functions.py (and of
 * functions.py, its copy without comments): bounds-checked neighbour counts,
 * survival on 2 or 3 neighbours, birth on exactly 3, and a synchronous
 * update of every cell, border included. It is also the reference the
 * evolvable engines reproduce when their thresholds keep their defaults.
 */
module ClassicLife {
  import opened Grid

  /** `initialize_board(num_rows, num_cols)`: a board of the given shape, every cell dead. */
  function InitializeBoard(rows: nat, cols: nat): (b: Board)
    ensures Shaped(b, rows, cols)
    ensures forall x, y :: 0 <= x < rows && 0 <= y < cols ==> !b[x][y]
  {
    Filled(rows, cols, false)
  }

  /**
   * `in_field(board, i, j)`: whether (i, j) is a position of the board, judged
   * against the length of the first row; on a rectangular board it is exactly
   * the condition under which `b[i][j]` may be read.
   */
  function InField(b: Board, i: int, j: int): (r: bool)
    ensures r <==> 0 <= i < |b| && 0 <= j < |b[0]|
    ensures Rect(b) ==> (r <==> 0 <= i < |b| && 0 <= j < |b[i]|)
  {
    0 <= i < |b| && 0 <= j < |b[0]|
  }

  /** What window cell (i, j) adds to the count of (r, c): one if it is on the board, live, and not (r, c) itself. */
  function Contribution(b: Board, r: int, c: int, i: int, j: int): nat
    requires Rect(b)
  {
    if (i != r || j != c) && InField(b, i, j) && b[i][j] then 1 else 0
  }

  /** The count gathered in row i over the columns c-1 .. jEnd-1. */
  function RowCount(b: Board, r: int, c: int, i: int, jEnd: int): (n: nat)
    requires Rect(b) && c - 1 <= jEnd <= c + 2
    ensures n <= jEnd - (c - 1) - (if i == r && c < jEnd then 1 else 0)
    decreases jEnd - (c - 1)
  {
    if jEnd == c - 1 then 0
    else RowCount(b, r, c, i, jEnd - 1) + Contribution(b, r, c, i, jEnd - 1)
  }

  /** The count gathered over the rows r-1 .. iEnd-1 of the 3 x 3 window. */
  function WindowCount(b: Board, r: int, c: int, iEnd: int): (n: nat)
    requires Rect(b) && r - 1 <= iEnd <= r + 2
    ensures n <= 3 * (iEnd - (r - 1)) - (if r < iEnd then 1 else 0)
    decreases iEnd - (r - 1)
  {
    if iEnd == r - 1 then 0
    else WindowCount(b, r, c, iEnd - 1) + RowCount(b, r, c, iEnd - 1, c + 2)
  }

  /**
   * The value of `count_live_neighbors(board, r, c)`: the live cells of the
   * 3 x 3 window around (r, c) that lie on the board, the centre excluded.
   */
  function LiveNeighborCount(b: Board, r: int, c: int): (n: nat)
    requires Rect(b)
    ensures n <= 8
  {
    WindowCount(b, r, c, r + 2)
  }

  /** `count_live_neighbors`: the nested loops over the window, accumulating `count`. */
  method CountLiveNeighbors(b: Board, r: int, c: int) returns (count: nat)
    requires Rect(b)
    ensures count == LiveNeighborCount(b, r, c)
  {
    count := 0;
    var i := r - 1;
    while i < r + 2
      invariant r - 1 <= i <= r + 2
      invariant count == WindowCount(b, r, c, i)
    {
      var j := c - 1;
      while j < c + 2
        invariant c - 1 <= j <= c + 2
        invariant count == WindowCount(b, r, c, i) + RowCount(b, r, c, i, j)
      {
        if (i != r || j != c) && InField(b, i, j) {
          if b[i][j] {
            count := count + 1;
          }
        }
        j := j + 1;
      }
      i := i + 1;
    }
  }

  /** `update_cell`: a live cell survives with 2 or 3 live neighbours; a dead cell is born with exactly 3. */
  function UpdateCell(b: Board, r: nat, c: nat): (alive: bool)
    requires Rect(b) && r < |b| && c < |b[0]|
    ensures b[r][c] ==> (alive <==> 2 <= LiveNeighborCount(b, r, c) <= 3)
    ensures !b[r][c] ==> (alive <==> LiveNeighborCount(b, r, c) == 3)
  {
    var n := LiveNeighborCount(b, r, c);
    if b[r][c] then n == 2 || n == 3 else n == 3
  }

  /** The next generation: every cell of the same shape updated from the previous board alone. */
  function NextBoard(b: Board): (nb: Board)
    requires Rect(b)
    ensures Shaped(nb, |b|, |b[0]|) && Rect(nb)
    ensures forall x, y :: 0 <= x < |b| && 0 <= y < |b[0]| ==> nb[x][y] == UpdateCell(b, x, y)
  {
    seq(|b|, x requires 0 <= x < |b| => seq(|b[0]|, y requires 0 <= y < |b[0]| => UpdateCell(b, x, y)))
  }

  /**
   * `update_board`: fills a fresh all-dead board cell by cell; since only the
   * fresh board is written, the result is the synchronous update of the old one.
   */
  method UpdateBoard(b: Board) returns (nb: Board)
    requires Rect(b)
    ensures nb == NextBoard(b)
  {
    var rows, cols := |b|, |b[0]|;
    nb := InitializeBoard(rows, cols);
    var r := 0;
    while r < rows
      invariant 0 <= r <= rows
      invariant Shaped(nb, rows, cols)
      invariant forall x, y :: 0 <= x < rows && 0 <= y < cols ==>
                  nb[x][y] == (x < r && UpdateCell(b, x, y))
    {
      var c := 0;
      while c < cols
        invariant 0 <= c <= cols
        invariant Shaped(nb, rows, cols)
        invariant forall x, y :: 0 <= x < rows && 0 <= y < cols ==>
                    nb[x][y] == ((x < r || (x == r && y < c)) && UpdateCell(b, x, y))
      {
        var n := CountLiveNeighbors(b, r, c);
        var alive := if b[r][c] then n == 2 || n == 3 else n == 3;
        nb := Set2(nb, r, c, alive);
        c := c + 1;
      }
      r := r + 1;
    }
    FieldExt(nb, NextBoard(b), rows, cols);
  }

  /**
   * `play_game_of_life`: the initial board followed by one board per
   * generation, each the update of its predecessor, all of the initial shape.
   */
  method PlayGameOfLife(initial: Board, numGens: nat) returns (boards: seq<Board>)
    requires Rect(initial)
    ensures |boards| == numGens + 1 && boards[0] == initial
    ensures forall k :: 0 <= k < |boards| ==> Rect(boards[k]) && Shaped(boards[k], |initial|, |initial[0]|)
    ensures forall k :: 0 <= k < numGens ==> boards[k + 1] == NextBoard(boards[k])
  {
    boards := [initial];
    var g := 0;
    while g < numGens
      invariant 0 <= g <= numGens
      invariant |boards| == g + 1 && boards[0] == initial
      invariant forall k :: 0 <= k < |boards| ==> Rect(boards[k]) && Shaped(boards[k], |initial|, |initial[0]|)
      invariant forall k :: 0 <= k < g ==> boards[k + 1] == NextBoard(boards[k])
    {
      var next := UpdateBoard(boards[|boards| - 1]);
      boards := boards + [next];
      g := g + 1;
    }
  }

  /** Boards of one shape that differ at most at (r, c) give (r, c) the same row counts. */
  lemma {:induction false} RowCountIgnoresCentre(b1: Board, b2: Board, r: int, c: int, i: int, jEnd: int)
    requires Rect(b1) && Shaped(b2, |b1|, |b1[0]|) && Rect(b2)
    requires forall x, y :: 0 <= x < |b1| && 0 <= y < |b1[0]| && (x != r || y != c) ==> b1[x][y] == b2[x][y]
    requires c - 1 <= jEnd <= c + 2
    ensures RowCount(b1, r, c, i, jEnd) == RowCount(b2, r, c, i, jEnd)
    decreases jEnd - (c - 1)
  {
    if jEnd != c - 1 {
      RowCountIgnoresCentre(b1, b2, r, c, i, jEnd - 1);
    }
  }

  lemma {:induction false} WindowCountIgnoresCentre(b1: Board, b2: Board, r: int, c: int, iEnd: int)
    requires Rect(b1) && Shaped(b2, |b1|, |b1[0]|) && Rect(b2)
    requires forall x, y :: 0 <= x < |b1| && 0 <= y < |b1[0]| && (x != r || y != c) ==> b1[x][y] == b2[x][y]
    requires r - 1 <= iEnd <= r + 2
    ensures WindowCount(b1, r, c, iEnd) == WindowCount(b2, r, c, iEnd)
    decreases iEnd - (r - 1)
  {
    if iEnd != r - 1 {
      WindowCountIgnoresCentre(b1, b2, r, c, iEnd - 1);
      RowCountIgnoresCentre(b1, b2, r, c, iEnd - 1, c + 2);
    }
  }

  /** The count of (r, c) never depends on the state of (r, c) itself. */
  lemma CountIgnoresCentre(b: Board, r: nat, c: nat, alive: bool)
    requires Rect(b) && r < |b| && c < |b[0]|
    ensures Rect(Set2(b, r, c, alive))
    ensures LiveNeighborCount(Set2(b, r, c, alive), r, c) == LiveNeighborCount(b, r, c)
  {
    WindowCountIgnoresCentre(b, Set2(b, r, c, alive), r, c, r + 2);
  }

  lemma {:induction false} RowCountOfDead(b: Board, r: int, c: int, i: int, jEnd: int)
    requires Rect(b) && forall x, y :: 0 <= x < |b| && 0 <= y < |b[x]| ==> !b[x][y]
    requires c - 1 <= jEnd <= c + 2
    ensures RowCount(b, r, c, i, jEnd) == 0
    decreases jEnd - (c - 1)
  {
    if jEnd != c - 1 {
      RowCountOfDead(b, r, c, i, jEnd - 1);
    }
  }

  lemma {:induction false} WindowCountOfDead(b: Board, r: int, c: int, iEnd: int)
    requires Rect(b) && forall x, y :: 0 <= x < |b| && 0 <= y < |b[x]| ==> !b[x][y]
    requires r - 1 <= iEnd <= r + 2
    ensures WindowCount(b, r, c, iEnd) == 0
    decreases iEnd - (r - 1)
  {
    if iEnd != r - 1 {
      WindowCountOfDead(b, r, c, iEnd - 1);
      RowCountOfDead(b, r, c, iEnd - 1, c + 2);
    }
  }

  /** An all-dead board stays all dead: no cell has the three live neighbours a birth needs. */
  lemma AllDeadStaysDead(b: Board)
    requires Rect(b) && Population(b) == 0
    ensures Population(NextBoard(b)) == 0
  {
    var nb := NextBoard(b);
    forall x, y | 0 <= x < |nb| && 0 <= y < |nb[x]|
      ensures !nb[x][y]
    {
      WindowCountOfDead(b, x, y, x + 2);
    }
  }

  /**
   * On an interior cell the bounds-checked count equals the window count the
   * evolvable engines use (the window sum minus the cell).
   */
  lemma CountMatchesWindow(b: Board, i: nat, j: nat)
    requires InteriorOf(b, i, j)
    ensures LiveNeighborCount(b, i, j) == NeighborCount(b, i, j)
  {
    assert |b[i - 1]| == |b[i]| == |b[i + 1]| == |b[0]|;
    forall x | i - 1 <= x <= i + 1
      ensures RowCount(b, i, j, x, j + 2) ==
              (if x != i then Bit(b[x][j - 1]) + Bit(b[x][j]) + Bit(b[x][j + 1])
               else Bit(b[x][j - 1]) + Bit(b[x][j + 1]))
    {
      assert RowCount(b, i, j, x, j - 1) == 0;
      assert RowCount(b, i, j, x, j) == Contribution(b, i, j, x, j - 1);
      assert RowCount(b, i, j, x, j + 1) == RowCount(b, i, j, x, j) + Contribution(b, i, j, x, j);
    }
    assert WindowCount(b, i, j, i - 1) == 0;
    assert WindowCount(b, i, j, i) == RowCount(b, i, j, i - 1, j + 2);
    assert WindowCount(b, i, j, i + 1) == WindowCount(b, i, j, i) + RowCount(b, i, j, i, j + 2);
  }
}
