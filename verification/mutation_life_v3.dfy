/**
 * The third evolvable engine (mutation_functionv3.py): float thresholds, a
 * birth rule that compares the neighbour count against the rounded `born`
 * of a randomly chosen live parent (n >= born), the death sentinel
 * born = -1, a recorded board and population history, and a run that stops
 * after ten consecutive unchanged generations.
 */
module MutationLifeV3 {
  import opened Grid
  import opened Inheritance
  import opened SteadyState

  /** The board and its three parallel float threshold arrays. */
  datatype State = State(board: Board, lonely: Field<real>, born: Field<real>, crowded: Field<real>)

  datatype Cell = Cell(alive: bool, th: Thresholds<real>)

  /** The thresholds every cell starts with. */
  const Start: Thresholds<real> := Thresholds(2.0, 3.0, 3.0)

  predicate Valid(s: State)
  {
    Rect(s.board) &&
    Shaped(s.lonely, |s.board|, |s.board[0]|) &&
    Shaped(s.born, |s.board|, |s.board[0]|) &&
    Shaped(s.crowded, |s.board|, |s.board[0]|)
  }

  predicate SameShape(s: State, t: State)
    requires Valid(s)
  {
    Valid(t) && |t.board| == |s.board| && |t.board[0]| == |s.board[0]|
  }

  function At(s: State, x: nat, y: nat): Cell
    requires Valid(s) && x < |s.board| && y < |s.board[0]|
  {
    Cell(s.board[x][y], Thresholds(s.lonely[x][y], s.born[x][y], s.crowded[x][y]))
  }

  function Put(s: State, i: nat, j: nat, c: Cell): (t: State)
    requires Valid(s) && i < |s.board| && j < |s.board[0]|
    ensures SameShape(s, t)
    ensures forall x, y :: 0 <= x < |s.board| && 0 <= y < |s.board[0]| ==>
              At(t, x, y) == if x == i && y == j then c else At(s, x, y)
  {
    State(Set2(s.board, i, j, c.alive), Set2(s.lonely, i, j, c.th.lonely),
          Set2(s.born, i, j, c.th.born), Set2(s.crowded, i, j, c.th.crowded))
  }

  lemma Ext(s: State, t: State)
    requires Valid(s) && SameShape(s, t)
    requires forall x, y :: 0 <= x < |s.board| && 0 <= y < |s.board[0]| ==> At(s, x, y) == At(t, x, y)
    ensures s == t
  {
    var rows, cols := |s.board|, |s.board[0]|;
    forall x, y | 0 <= x < rows && 0 <= y < cols
      ensures s.board[x][y] == t.board[x][y] && s.lonely[x][y] == t.lonely[x][y]
      ensures s.born[x][y] == t.born[x][y] && s.crowded[x][y] == t.crowded[x][y]
    {
      assert At(s, x, y) == At(t, x, y);
    }
    FieldExt(s.board, t.board, rows, cols);
    FieldExt(s.lonely, t.lonely, rows, cols);
    FieldExt(s.born, t.born, rows, cols);
    FieldExt(s.crowded, t.crowded, rows, cols);
  }

  function Init(b: Board): (s: State)
    requires Rect(b)
    ensures Valid(s) && s.board == b
    ensures forall x, y :: 0 <= x < |b| && 0 <= y < |b[0]| ==> At(s, x, y).th == Start
  {
    State(b, Filled(|b|, |b[0]|, 2.0), Filled(|b|, |b[0]|, 3.0), Filled(|b|, |b[0]|, 3.0))
  }

  /** The new value of an interior cell, from the previous state only. */
  function NextCell(s: State, i: nat, j: nat, d: Draw, params: MutationParams): (c: Cell)
    requires Valid(s) && Interior(|s.board|, |s.board[0]|, i, j)
    ensures s.board[i][j] ==>
              (c.alive <==> Round(s.lonely[i][j]) <= NeighborCount(s.board, i, j) <= Round(s.crowded[i][j]))
    ensures s.board[i][j] && c.alive ==> c == At(s, i, j)
    ensures s.board[i][j] && !c.alive ==> c.th == DeathReset
    ensures !s.board[i][j] && NeighborCount(s.board, i, j) == 0 ==> c == At(s, i, j)
    ensures !s.board[i][j] && NeighborCount(s.board, i, j) > 0 ==>
              var p := Parent(s.board, i, j, d);
              (c.alive <==> NeighborCount(s.board, i, j) >= Round(s.born[p.0][p.1])) &&
              (c.alive ==> c.th == Mutated(Inherit(At(s, p.0, p.1).th), d, params)) &&
              (!c.alive ==> c == At(s, i, j))
  {
    var n := NeighborCount(s.board, i, j);
    var here := At(s, i, j);
    if here.alive then
      if n < Round(here.th.lonely) || n > Round(here.th.crowded) then Cell(false, DeathReset)
      else here
    else if n > 0 then
      var p := Parent(s.board, i, j, d);
      var parent := At(s, p.0, p.1).th;
      if n >= Round(parent.born) then Cell(true, Mutated(Inherit(parent), d, params))
      else here
    else here
  }

  function Target(s: State, rng: Oracle, gen: nat, params: MutationParams, x: nat, y: nat): Cell
    requires Valid(s) && x < |s.board| && y < |s.board[0]|
  {
    if Interior(|s.board|, |s.board[0]|, x, y) then NextCell(s, x, y, rng(gen, x, y), params)
    else Cell(false, At(s, x, y).th)
  }

  /** `t` is what generation `gen` makes of `s`: every cell is its target. */
  ghost predicate IsNext(s: State, rng: Oracle, gen: nat, params: MutationParams, t: State)
    requires Valid(s)
  {
    SameShape(s, t) &&
    forall x, y {:trigger Target(s, rng, gen, params, x, y)} :: 0 <= x < |s.board| && 0 <= y < |s.board[0]| ==> At(t, x, y) == Target(s, rng, gen, params, x, y)
  }

  /** The state built cell by cell from the targets. */
  function Build(s: State, rng: Oracle, gen: nat, params: MutationParams): (t: State)
    requires Valid(s)
    ensures IsNext(s, rng, gen, params, t)
  {
    var rows, cols := |s.board|, |s.board[0]|;
    State(
      seq(rows, x requires 0 <= x < rows => seq(cols, y requires 0 <= y < cols => Target(s, rng, gen, params, x, y).alive)),
      seq(rows, x requires 0 <= x < rows => seq(cols, y requires 0 <= y < cols => Target(s, rng, gen, params, x, y).th.lonely)),
      seq(rows, x requires 0 <= x < rows => seq(cols, y requires 0 <= y < cols => Target(s, rng, gen, params, x, y).th.born)),
      seq(rows, x requires 0 <= x < rows => seq(cols, y requires 0 <= y < cols => Target(s, rng, gen, params, x, y).th.crowded)))
  }

  /**
   * Generation `gen` (counted from 1): every interior cell is computed from
   * the previous state alone; every border cell of the new board is dead and
   * keeps its thresholds.
   * `Build` constructs this state; `Next` refers to it only through the
   * cell-wise characterisation, so that proofs about a generation reason one
   * cell at a time instead of unfolding the field comprehensions.
   */
  ghost function Next(s: State, rng: Oracle, gen: nat, params: MutationParams): (t: State)
    requires Valid(s)
    ensures SameShape(s, t)
    ensures forall x, y {:trigger Target(s, rng, gen, params, x, y)} :: 0 <= x < |s.board| && 0 <= y < |s.board[0]| ==>
              At(t, x, y) == Target(s, rng, gen, params, x, y)
  {
    var w := Build(s, rng, gen, params);
    assert IsNext(s, rng, gen, params, w);
    var t :| IsNext(s, rng, gen, params, t);
    t
  }

  /** The border of every new board is dead and keeps its thresholds: only interior cells are written. */
  lemma BorderDies(s: State, rng: Oracle, gen: nat, params: MutationParams, x: nat, y: nat)
    requires Valid(s) && x < |s.board| && y < |s.board[0]| && !Interior(|s.board|, |s.board[0]|, x, y)
    ensures var t := Next(s, rng, gen, params);
            !t.board[x][y] && At(t, x, y).th == At(s, x, y).th
  {
    assert At(Next(s, rng, gen, params), x, y) == Target(s, rng, gen, params, x, y);
  }

  /** The body of the generation loop: fresh copies, interior cells written in row-major order. */
  method Step(s: State, rng: Oracle, gen: nat, params: MutationParams) returns (t: State)
    requires Valid(s)
    ensures t == Next(s, rng, gen, params)
  {
    var rows, cols := |s.board|, |s.board[0]|;
    t := State(Filled(rows, cols, false), s.lonely, s.born, s.crowded);
    var i := 1;
    while i < rows - 1
      invariant 1 <= i
      invariant SameShape(s, t)
      invariant forall x, y :: 0 <= x < rows && 0 <= y < cols ==>
                  At(t, x, y) == if x < i then Target(s, rng, gen, params, x, y) else Cell(false, At(s, x, y).th)
    {
      var j := 1;
      while j < cols - 1
        invariant 1 <= j
        invariant SameShape(s, t)
        invariant forall x, y :: 0 <= x < rows && 0 <= y < cols ==>
                    At(t, x, y) == if x < i || (x == i && y < j) then Target(s, rng, gen, params, x, y)
                                   else Cell(false, At(s, x, y).th)
      {
        t := Put(t, i, j, NextCell(s, i, j, rng(gen, i, j), params));
        j := j + 1;
      }
      i := i + 1;
    }
    forall x, y | 0 <= x < rows && 0 <= y < cols
      ensures At(t, x, y) == At(Next(s, rng, gen, params), x, y)
    {
      assert At(t, x, y) == Target(s, rng, gen, params, x, y);
    }
    Ext(t, Next(s, rng, gen, params));
  }

  /** The state after k generations; generation k uses the draws of generation number k. */
  ghost function Run(init: State, rng: Oracle, params: MutationParams, k: nat): (s: State)
    requires Valid(init)
    ensures SameShape(init, s)
  {
    if k == 0 then init else Next(Run(init, rng, params, k - 1), rng, k, params)
  }

  /** The boards of generations 0 to n: the initial board, then the recorded history. */
  ghost function History(init: State, rng: Oracle, params: MutationParams, n: nat): (h: seq<Board>)
    requires Valid(init)
    ensures |h| == n + 1 && h[0] == init.board
  {
    if n == 0 then [init.board] else History(init, rng, params, n - 1) + [Run(init, rng, params, n).board]
  }

  /** Entry k of the history is the board of generation k. */
  lemma {:induction false} HistoryAt(init: State, rng: Oracle, params: MutationParams, n: nat, k: nat)
    requires Valid(init) && k <= n
    ensures History(init, rng, params, n)[k] == Run(init, rng, params, k).board
  {
    if k < n {
      HistoryAt(init, rng, params, n - 1, k);
    }
  }

  /** Every live cell's thresholds lie in [0, 8]; dead cells may hold the sentinel -1. */
  ghost predicate LiveInRange(s: State)
    requires Valid(s)
  {
    forall x, y :: 0 <= x < |s.board| && 0 <= y < |s.board[0]| && s.board[x][y] ==> InRange(At(s, x, y).th)
  }

  /**
   * A generation keeps live thresholds in range: survivors keep theirs, and a
   * newborn inherits from a live parent, with `born` rounded and the mutated
   * threshold clipped.
   */
  lemma NextKeepsLiveInRange(s: State, rng: Oracle, gen: nat, params: MutationParams)
    requires Valid(s) && LiveInRange(s)
    ensures LiveInRange(Next(s, rng, gen, params))
  {
    var t := Next(s, rng, gen, params);
    forall x, y | 0 <= x < |s.board| && 0 <= y < |s.board[0]| && t.board[x][y]
      ensures InRange(At(t, x, y).th)
    {
      assert At(t, x, y) == Target(s, rng, gen, params, x, y);
      if !s.board[x][y] {
        var p := Parent(s.board, x, y, rng(gen, x, y));
        assert InRange(At(s, p.0, p.1).th);
      }
    }
  }

  /** Live thresholds stay in range in every generation of a run that starts with them in range, as `Init` does. */
  lemma {:induction false} RunKeepsLiveInRange(init: State, rng: Oracle, params: MutationParams, k: nat)
    requires Valid(init) && LiveInRange(init)
    ensures LiveInRange(Run(init, rng, params, k))
  {
    if k > 0 {
      var r := Run(init, rng, params, k - 1);
      RunKeepsLiveInRange(init, rng, params, k - 1);
      NextKeepsLiveInRange(r, rng, k, params);
      assert Run(init, rng, params, k) == Next(r, rng, k, params);
    }
  }

  /**
   * A generation that leaves the board unchanged leaves every threshold
   * unchanged: no cell died and no cell was born.
   */
  lemma UnchangedBoardFixesState(s: State, rng: Oracle, gen: nat, params: MutationParams)
    requires Valid(s) && Next(s, rng, gen, params).board == s.board
    ensures Next(s, rng, gen, params) == s
  {
    var t := Next(s, rng, gen, params);
    forall x, y | 0 <= x < |s.board| && 0 <= y < |s.board[0]|
      ensures At(t, x, y) == At(s, x, y)
    {
      assert t.board[x][y] == s.board[x][y];
      assert At(t, x, y) == Target(s, rng, gen, params, x, y);
    }
    Ext(t, s);
  }

  /** Generation m + 1 left the board of generation m unchanged. */
  ghost predicate Unchanged(init: State, rng: Oracle, params: MutationParams, m: nat)
    requires Valid(init)
  {
    Run(init, rng, params, m + 1).board == Run(init, rng, params, m).board
  }

  /**
   * The counter reaches ten at generation n exactly when each of the ten
   * generations up to n left the board unchanged.
   */
  lemma SteadyMeansTenRepeats(init: State, rng: Oracle, params: MutationParams, numGens: nat, n: nat)
    requires Valid(init) && Required <= n <= numGens
    ensures Streak(History(init, rng, params, numGens), n) >= Required <==>
            forall m :: n - Required <= m < n ==> Unchanged(init, rng, params, m)
  {
    var h := History(init, rng, params, numGens);
    StreakCountsRepeats(h, n, Required);
    if Streak(h, n) >= Required {
      forall m | n - Required <= m < n
        ensures Unchanged(init, rng, params, m)
      {
        assert h[m] == h[m + 1];
        HistoryAt(init, rng, params, numGens, m);
        HistoryAt(init, rng, params, numGens, m + 1);
      }
    } else {
      var m :| n - Required <= m < n && h[m] != h[m + 1];
      HistoryAt(init, rng, params, numGens, m);
      HistoryAt(init, rng, params, numGens, m + 1);
      assert !Unchanged(init, rng, params, m);
    }
  }

  /**
   * The driver's bookkeeping after |boards| generations: `s` is the state,
   * `boards` and `population` record generations 1 to |boards|, and `steady`
   * is the counter; the run has stopped exactly when the counter is ten.
   */
  ghost predicate Recorded(init: State, rng: Oracle, params: MutationParams, numGens: nat,
                           s: State, boards: seq<Board>, population: seq<nat>, steady: nat)
    requires Valid(init)
  {
    var h := History(init, rng, params, numGens);
    |boards| <= numGens && s == Run(init, rng, params, |boards|) &&
    boards == h[1..|boards| + 1] &&
    |population| == |boards| && (forall k :: 0 <= k < |boards| ==> population[k] == Population(boards[k])) &&
    steady == Streak(h, |boards|) && steady <= Required &&
    (steady < Required ==> StopPoint(h, |boards|) == StopPoint(h, 0)) &&
    (steady == Required ==> |boards| == StopPoint(h, 0))
  }

  /** One pass of the generation loop: the next state, its board and population recorded, the counter updated. */
  method Turn(ghost init: State, s: State, rng: Oracle, params: MutationParams, ghost numGens: nat,
              boards: seq<Board>, population: seq<nat>, steady: nat)
    returns (t: State, boards': seq<Board>, population': seq<nat>, steady': nat)
    requires Valid(init) && Recorded(init, rng, params, numGens, s, boards, population, steady)
    requires |boards| < numGens && steady < Required
    ensures |boards'| == |boards| + 1
    ensures Recorded(init, rng, params, numGens, t, boards', population', steady')
  {
    ghost var h := History(init, rng, params, numGens);
    var done := |boards|;
    t := Step(s, rng, done + 1, params);
    HistoryAt(init, rng, params, numGens, done);
    HistoryAt(init, rng, params, numGens, done + 1);
    boards' := boards + [t.board];
    population' := population + [Population(t.board)];
    StreakAdvances(h, done, steady);
    steady' := if t.board == s.board then steady + 1 else 0;
    assert boards' == h[1..done + 2];
  }

  /** What the driver reports; the threshold means are not modelled. */
  datatype Outcome = Outcome(gens: nat, population: seq<nat>, final: State, finalPopulation: nat, boards: seq<Board>)

  /**
   * `play_game_of_life`: generation by generation, records each new board and
   * its population and counts consecutive unchanged generations; stops when
   * the count reaches ten, reporting one more than the generation number,
   * and otherwise reports `num_gens` after the last generation.
   */
  method PlayGameOfLife(initial: Board, numGens: nat, params: MutationParams, rng: Oracle) returns (r: Outcome)
    requires Rect(initial)
    ensures |r.boards| <= numGens && |r.boards| == StopPoint(History(Init(initial), rng, params, numGens), 0)
    ensures r.boards == History(Init(initial), rng, params, numGens)[1..|r.boards| + 1]
    ensures |r.population| == |r.boards|
    ensures forall k :: 0 <= k < |r.boards| ==> r.population[k] == Population(r.boards[k])
    ensures r.final == Run(Init(initial), rng, params, |r.boards|)
    ensures r.finalPopulation == Population(r.final.board)
    ensures r.gens == if Streak(History(Init(initial), rng, params, numGens), |r.boards|) >= Required
                      then |r.boards| + 1 else numGens
  {
    var s := Init(initial);
    ghost var init := s;
    var boards: seq<Board> := [];
    var population: seq<nat> := [];
    var steady: nat := 0;
    while |boards| < numGens
      invariant Recorded(init, rng, params, numGens, s, boards, population, steady) && steady < Required
    {
      s, boards, population, steady := Turn(init, s, rng, params, numGens, boards, population, steady);
      if steady == Required {
        return Outcome(|boards| + 1, population, s, Population(s.board), boards);
      }
    }
    return Outcome(numGens, population, s, Population(s.board), boards);
  }
}
