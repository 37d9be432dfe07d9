/**
 * The first evolvable engine (mutation_functions.py): every cell carries
 * integer `lonely`, `born` and `crowded` thresholds. A live cell survives
 * while lonely <= n <= crowded; a dead cell is born when n equals its own
 * `born`; a newborn copies the thresholds of a randomly chosen live
 * neighbour, one of which may then be mutated. The border never changes.
 * The run stops at the first generation that leaves the board unchanged.
 */
module MutationLife {
  import opened Grid
  import opened Inheritance
  import ClassicLife

  /** The board and its three parallel integer threshold arrays. */
  datatype State = State(board: Board, lonely: Field<int>, born: Field<int>, crowded: Field<int>)

  /** One cell of a state: its liveness and its thresholds. */
  datatype Cell = Cell(alive: bool, th: Thresholds<int>)

  /** The thresholds every cell starts with and a dying cell returns to. */
  const Defaults: Thresholds<int> := Thresholds(2, 3, 3)

  /** All four arrays have the board's rectangular shape. */
  predicate Valid(s: State)
  {
    Rect(s.board) &&
    Shaped(s.lonely, |s.board|, |s.board[0]|) &&
    Shaped(s.born, |s.board|, |s.board[0]|) &&
    Shaped(s.crowded, |s.board|, |s.board[0]|)
  }

  predicate SameShape(s: State, t: State)
    requires Valid(s)
  {
    Valid(t) && |t.board| == |s.board| && |t.board[0]| == |s.board[0]|
  }

  function At(s: State, x: nat, y: nat): Cell
    requires Valid(s) && x < |s.board| && y < |s.board[0]|
  {
    Cell(s.board[x][y], Thresholds(s.lonely[x][y], s.born[x][y], s.crowded[x][y]))
  }

  /** Writes one cell into all four arrays. */
  function Put(s: State, i: nat, j: nat, c: Cell): (t: State)
    requires Valid(s) && i < |s.board| && j < |s.board[0]|
    ensures SameShape(s, t)
    ensures forall x, y :: 0 <= x < |s.board| && 0 <= y < |s.board[0]| ==>
              At(t, x, y) == if x == i && y == j then c else At(s, x, y)
  {
    State(Set2(s.board, i, j, c.alive), Set2(s.lonely, i, j, c.th.lonely),
          Set2(s.born, i, j, c.th.born), Set2(s.crowded, i, j, c.th.crowded))
  }

  lemma Ext(s: State, t: State)
    requires Valid(s) && SameShape(s, t)
    requires forall x, y :: 0 <= x < |s.board| && 0 <= y < |s.board[0]| ==> At(s, x, y) == At(t, x, y)
    ensures s == t
  {
    var rows, cols := |s.board|, |s.board[0]|;
    forall x, y | 0 <= x < rows && 0 <= y < cols
      ensures s.board[x][y] == t.board[x][y] && s.lonely[x][y] == t.lonely[x][y]
      ensures s.born[x][y] == t.born[x][y] && s.crowded[x][y] == t.crowded[x][y]
    {
      assert At(s, x, y) == At(t, x, y);
    }
    FieldExt(s.board, t.board, rows, cols);
    FieldExt(s.lonely, t.lonely, rows, cols);
    FieldExt(s.born, t.born, rows, cols);
    FieldExt(s.crowded, t.crowded, rows, cols);
  }

  /** The state a run starts from: the initial board, every threshold at its default. */
  function Init(b: Board): (s: State)
    requires Rect(b)
    ensures Valid(s) && s.board == b
    ensures forall x, y :: 0 <= x < |b| && 0 <= y < |b[0]| ==> At(s, x, y).th == Defaults
  {
    State(b, Filled(|b|, |b[0]|, 2), Filled(|b|, |b[0]|, 3), Filled(|b|, |b[0]|, 3))
  }

  /**
   * The new value of an interior cell, from the previous state only.
   * (The source rounds the thresholds first; rounding an integer keeps it.)
   */
  function NextCell(s: State, i: nat, j: nat, d: Draw, params: MutationParams): (c: Cell)
    requires Valid(s) && Interior(|s.board|, |s.board[0]|, i, j)
    ensures s.board[i][j] ==>
              (c.alive <==> s.lonely[i][j] <= NeighborCount(s.board, i, j) <= s.crowded[i][j])
    ensures s.board[i][j] && c.alive ==> c == At(s, i, j)
    ensures s.board[i][j] && !c.alive ==> c.th == Defaults
    ensures !s.board[i][j] ==> (c.alive <==> NeighborCount(s.board, i, j) == s.born[i][j])
    ensures !s.board[i][j] && !c.alive ==> c == At(s, i, j)
    ensures !s.board[i][j] && c.alive && NeighborCount(s.board, i, j) > 0 ==>
              var p := Parent(s.board, i, j, d);
              c.th == MutatedInt(At(s, p.0, p.1).th, d, params)
    ensures !s.board[i][j] && c.alive && NeighborCount(s.board, i, j) == 0 ==>
              c.th == At(s, i, j).th
  {
    var n := NeighborCount(s.board, i, j);
    var here := At(s, i, j);
    if here.alive then
      if n < here.th.lonely || n > here.th.crowded then Cell(false, Defaults)
      else here
    else if n == here.th.born then
      if n > 0 then
        var p := Parent(s.board, i, j, d);
        Cell(true, MutatedInt(At(s, p.0, p.1).th, d, params))
      else Cell(true, here.th)
    else here
  }

  /** A cell of the next state: interior cells follow NextCell; border cells are dead and keep their thresholds. */
  function Target(s: State, rng: Oracle, gen: nat, params: MutationParams, x: nat, y: nat): Cell
    requires Valid(s) && x < |s.board| && y < |s.board[0]|
  {
    if Interior(|s.board|, |s.board[0]|, x, y) then NextCell(s, x, y, rng(gen, x, y), params)
    else Cell(false, At(s, x, y).th)
  }

  /** `t` is what one generation makes of `s`: every cell is its target. */
  ghost predicate IsNext(s: State, rng: Oracle, gen: nat, params: MutationParams, t: State)
    requires Valid(s)
  {
    SameShape(s, t) &&
    forall x, y {:trigger Target(s, rng, gen, params, x, y)} :: 0 <= x < |s.board| && 0 <= y < |s.board[0]| ==> At(t, x, y) == Target(s, rng, gen, params, x, y)
  }

  /** A state built field by field from the targets, so one always exists. */
  function Build(s: State, rng: Oracle, gen: nat, params: MutationParams): (t: State)
    requires Valid(s)
    ensures IsNext(s, rng, gen, params, t)
  {
    var rows, cols := |s.board|, |s.board[0]|;
    State(
      seq(rows, x requires 0 <= x < rows => seq(cols, y requires 0 <= y < cols => Target(s, rng, gen, params, x, y).alive)),
      seq(rows, x requires 0 <= x < rows => seq(cols, y requires 0 <= y < cols => Target(s, rng, gen, params, x, y).th.lonely)),
      seq(rows, x requires 0 <= x < rows => seq(cols, y requires 0 <= y < cols => Target(s, rng, gen, params, x, y).th.born)),
      seq(rows, x requires 0 <= x < rows => seq(cols, y requires 0 <= y < cols => Target(s, rng, gen, params, x, y).th.crowded)))
  }

  /**
   * One generation: each interior cell is computed from the previous state
   * alone (a synchronous update); every border cell of the new board is dead
   * and keeps its thresholds. The state is characterised cell by cell, which
   * `Ext` shows determines it.
   * `Build` constructs this state; `Next` refers to it only through the
   * cell-wise characterisation, so that proofs about a generation reason one
   * cell at a time instead of unfolding the field comprehensions.
   */
  ghost function Next(s: State, rng: Oracle, gen: nat, params: MutationParams): (t: State)
    requires Valid(s)
    ensures SameShape(s, t)
    ensures forall x, y {:trigger Target(s, rng, gen, params, x, y)} :: 0 <= x < |s.board| && 0 <= y < |s.board[0]| ==>
              At(t, x, y) == Target(s, rng, gen, params, x, y)
  {
    var w := Build(s, rng, gen, params);
    assert IsNext(s, rng, gen, params, w);
    var t :| IsNext(s, rng, gen, params, t);
    t
  }

  /** The border of every new board is dead and keeps its thresholds: only interior cells are written. */
  lemma BorderDies(s: State, rng: Oracle, gen: nat, params: MutationParams, x: nat, y: nat)
    requires Valid(s) && x < |s.board| && y < |s.board[0]| && !Interior(|s.board|, |s.board[0]|, x, y)
    ensures var t := Next(s, rng, gen, params);
            !t.board[x][y] && At(t, x, y).th == At(s, x, y).th
  {
    assert At(Next(s, rng, gen, params), x, y) == Target(s, rng, gen, params, x, y);
  }

  /**
   * The body of the generation loop: a zeroed board and copies of the
   * threshold arrays, then the interior cells written one by one in row-major
   * order. Reading only `s` while writing only the copies yields exactly the
   * synchronous update.
   */
  method Step(s: State, rng: Oracle, gen: nat, params: MutationParams) returns (t: State)
    requires Valid(s)
    ensures t == Next(s, rng, gen, params)
  {
    var rows, cols := |s.board|, |s.board[0]|;
    t := State(Filled(rows, cols, false), s.lonely, s.born, s.crowded);
    var i := 1;
    while i < rows - 1
      invariant 1 <= i
      invariant SameShape(s, t)
      invariant forall x, y :: 0 <= x < rows && 0 <= y < cols ==>
                  At(t, x, y) == if x < i then Target(s, rng, gen, params, x, y) else Cell(false, At(s, x, y).th)
    {
      var j := 1;
      while j < cols - 1
        invariant 1 <= j
        invariant SameShape(s, t)
        invariant forall x, y :: 0 <= x < rows && 0 <= y < cols ==>
                    At(t, x, y) == if x < i || (x == i && y < j) then Target(s, rng, gen, params, x, y)
                                   else Cell(false, At(s, x, y).th)
      {
        t := Put(t, i, j, NextCell(s, i, j, rng(gen, i, j), params));
        j := j + 1;
      }
      i := i + 1;
    }
    forall x, y | 0 <= x < rows && 0 <= y < cols
      ensures At(t, x, y) == At(Next(s, rng, gen, params), x, y)
    {
      assert At(t, x, y) == Target(s, rng, gen, params, x, y);
    }
    Ext(t, Next(s, rng, gen, params));
  }

  /** The state after k generations; generation k + 1 uses the draws of loop index k. */
  ghost function Run(init: State, rng: Oracle, params: MutationParams, k: nat): (s: State)
    requires Valid(init)
    ensures SameShape(init, s)
  {
    if k == 0 then init else Next(Run(init, rng, params, k - 1), rng, k - 1, params)
  }

  /**
   * Generation k + 1 left the board of generation k unchanged, the test the
   * driver makes. Comparing boards is as strong as comparing whole states:
   * an unchanged board means unchanged thresholds too.
   */
  ghost function Repeats(init: State, rng: Oracle, params: MutationParams, k: nat): (r: bool)
    requires Valid(init)
    ensures r <==> Run(init, rng, params, k + 1) == Run(init, rng, params, k)
  {
    var s := Run(init, rng, params, k);
    var same := Run(init, rng, params, k + 1).board == s.board;
    if same then RepeatIsFixedPoint(s, rng, k, params, rng, k, params); same else same
  }

  /** The value the driver returns when it scans from loop index k: between k and `num_gens`. */
  ghost function StopFrom(init: State, rng: Oracle, params: MutationParams, numGens: nat, k: nat): (g: nat)
    requires Valid(init) && k <= numGens
    ensures k <= g <= numGens
    decreases numGens - k
  {
    if k == numGens then numGens
    else if Repeats(init, rng, params, k) then k + 1
    else StopFrom(init, rng, params, numGens, k + 1)
  }

  /**
   * The driver's result is one past the first loop index whose generation
   * repeats the board, or `num_gens` when no generation does.
   */
  lemma {:induction false} StopAtFirstRepeat(init: State, rng: Oracle, params: MutationParams, numGens: nat, k: nat)
    requires Valid(init) && k <= numGens
    ensures var g := StopFrom(init, rng, params, numGens, k);
            k <= g <= numGens &&
            (forall m :: k <= m < g - 1 ==> !Repeats(init, rng, params, m)) &&
            (g < numGens ==> k < g && Repeats(init, rng, params, g - 1)) &&
            (g == numGens ==> forall m :: k <= m < numGens - 1 ==> !Repeats(init, rng, params, m))
    decreases numGens - k
  {
    if k < numGens && !Repeats(init, rng, params, k) {
      StopAtFirstRepeat(init, rng, params, numGens, k + 1);
    }
  }

  /**
   * `play_game_of_life_with_mutation`: runs generations until one leaves the
   * board unchanged (returning its number) or `num_gens` have run.
   */
  method PlayGameOfLifeWithMutation(initial: Board, numGens: nat, params: MutationParams, rng: Oracle)
    returns (gens: nat)
    requires Rect(initial)
    ensures gens == StopFrom(Init(initial), rng, params, numGens, 0)
  {
    var s := Init(initial);
    var gen := 0;
    while gen < numGens
      invariant gen <= numGens
      invariant s == Run(Init(initial), rng, params, gen)
      invariant StopFrom(Init(initial), rng, params, numGens, gen) == StopFrom(Init(initial), rng, params, numGens, 0)
    {
      var t := Step(s, rng, gen, params);
      if t.board == s.board {
        return gen + 1;
      }
      s := t;
      gen := gen + 1;
    }
    return numGens;
  }

  /**
   * `simulate_population_with_mutation`: the same run, returning the number
   * of live cells on the board it stops at.
   */
  method SimulatePopulationWithMutation(initial: Board, numGens: nat, params: MutationParams, rng: Oracle)
    returns (population: nat)
    requires Rect(initial)
    ensures population ==
            Population(Run(Init(initial), rng, params, StopFrom(Init(initial), rng, params, numGens, 0)).board)
  {
    var s := Init(initial);
    var gen := 0;
    while gen < numGens
      invariant gen <= numGens
      invariant s == Run(Init(initial), rng, params, gen)
      invariant StopFrom(Init(initial), rng, params, numGens, gen) == StopFrom(Init(initial), rng, params, numGens, 0)
    {
      var t := Step(s, rng, gen, params);
      if t.board == s.board {
        return Population(t.board);
      }
      s := t;
      gen := gen + 1;
    }
    return Population(s.board);
  }

  /**
   * The invariant of a run: every threshold lies in [0, 8], and every dead
   * cell, and every border cell, carries the default thresholds.
   */
  ghost predicate Sound(s: State)
    requires Valid(s)
  {
    forall x, y :: 0 <= x < |s.board| && 0 <= y < |s.board[0]| ==>
      InRangeInt(At(s, x, y).th) &&
      ((!s.board[x][y] || !Interior(|s.board|, |s.board[0]|, x, y)) ==> At(s, x, y).th == Defaults)
  }

  /**
   * A generation keeps the state sound: a dying cell is reset to the
   * defaults, a dead cell that stays dead is untouched, the border is copied,
   * and a newborn takes its parent's thresholds, mutated within [0, 8].
   */
  lemma NextKeepsSound(s: State, rng: Oracle, gen: nat, params: MutationParams)
    requires Valid(s) && Sound(s)
    ensures Sound(Next(s, rng, gen, params))
  {
    var t := Next(s, rng, gen, params);
    var rows, cols := |s.board|, |s.board[0]|;
    forall x, y | 0 <= x < rows && 0 <= y < cols
      ensures (!t.board[x][y] || !Interior(rows, cols, x, y)) ==> At(t, x, y).th == Defaults
      ensures InRangeInt(At(t, x, y).th)
    {
      assert At(t, x, y) == Target(s, rng, gen, params, x, y);
      if Interior(rows, cols, x, y) && !s.board[x][y] && t.board[x][y] && NeighborCount(s.board, x, y) > 0 {
        var p := Parent(s.board, x, y, rng(gen, x, y));
        assert InRangeInt(At(s, p.0, p.1).th);
      }
    }
  }

  /** A run that starts sound, as `Init` does, stays sound in every generation. */
  lemma {:induction false} RunKeepsSound(init: State, rng: Oracle, params: MutationParams, k: nat)
    requires Valid(init) && Sound(init)
    ensures Sound(Run(init, rng, params, k))
  {
    if k > 0 {
      var r := Run(init, rng, params, k - 1);
      RunKeepsSound(init, rng, params, k - 1);
      NextKeepsSound(r, rng, k - 1, params);
      assert Run(init, rng, params, k) == Next(r, rng, k - 1, params);
    }
  }

  /**
   * Because a dead cell's own `born` is what a birth consults, and dead cells
   * always hold the default 3, births in this engine follow the classic rule
   * whatever the live cells have inherited.
   */
  lemma BirthNeedsThree(b: Board, rng: Oracle, params: MutationParams, k: nat, i: nat, j: nat)
    requires Rect(b) && Interior(|b|, |b[0]|, i, j)
    requires !Run(Init(b), rng, params, k).board[i][j]
    ensures Run(Init(b), rng, params, k + 1).board[i][j] <==>
            NeighborCount(Run(Init(b), rng, params, k).board, i, j) == 3
  {
    RunKeepsSound(Init(b), rng, params, k);
    var s := Run(Init(b), rng, params, k);
    assert At(s, i, j).th == Defaults;
    assert Run(Init(b), rng, params, k + 1) == Next(s, rng, k, params);
    assert At(Next(s, rng, k, params), i, j) == Target(s, rng, k, params, i, j);
  }

  /** Which cells live next depends only on the current state, never on the draws. */
  lemma BoardIgnoresDraws(s: State, rng1: Oracle, gen1: nat, params1: MutationParams,
                          rng2: Oracle, gen2: nat, params2: MutationParams)
    requires Valid(s)
    ensures Next(s, rng1, gen1, params1).board == Next(s, rng2, gen2, params2).board
  {
    var t1, t2 := Next(s, rng1, gen1, params1), Next(s, rng2, gen2, params2);
    forall x, y | 0 <= x < |s.board| && 0 <= y < |s.board[0]|
      ensures t1.board[x][y] == t2.board[x][y]
    {
      assert At(t1, x, y) == Target(s, rng1, gen1, params1, x, y);
      assert At(t2, x, y) == Target(s, rng2, gen2, params2, x, y);
    }
    FieldExt(t1.board, t2.board, |s.board|, |s.board[0]|);
  }

  /**
   * A generation that leaves the board unchanged leaves every threshold
   * unchanged too, whatever the draws: the state is a fixed point.
   */
  lemma RepeatIsFixedPoint(s: State, rng: Oracle, gen: nat, params: MutationParams,
                           rng2: Oracle, gen2: nat, params2: MutationParams)
    requires Valid(s) && Next(s, rng, gen, params).board == s.board
    ensures Next(s, rng2, gen2, params2) == s
  {
    BoardIgnoresDraws(s, rng, gen, params, rng2, gen2, params2);
    var t := Next(s, rng2, gen2, params2);
    forall x, y | 0 <= x < |s.board| && 0 <= y < |s.board[0]|
      ensures At(t, x, y) == At(s, x, y)
    {
      assert t.board[x][y] == s.board[x][y];
      assert At(t, x, y) == Target(s, rng2, gen2, params2, x, y);
    }
    Ext(t, s);
  }

  /** Once a generation repeats the board, every later generation is that same state, so stopping there loses nothing. */
  lemma {:induction false} StopIsFinal(init: State, rng: Oracle, params: MutationParams, k: nat, m: nat)
    requires Valid(init) && Repeats(init, rng, params, k) && k <= m
    ensures Run(init, rng, params, m) == Run(init, rng, params, k)
    decreases m - k
  {
    if m > k {
      StopIsFinal(init, rng, params, k, m - 1);
      RepeatIsFixedPoint(Run(init, rng, params, k), rng, k, params, rng, m - 1, params);
    }
  }

  /**
   * An interior cell whose thresholds are the defaults lives next exactly as
   * the classic rule of base_functions.py says.
   */
  lemma MatchesClassic(s: State, rng: Oracle, gen: nat, params: MutationParams, i: nat, j: nat)
    requires Valid(s) && Interior(|s.board|, |s.board[0]|, i, j) && At(s, i, j).th == Defaults
    ensures Next(s, rng, gen, params).board[i][j] == ClassicLife.UpdateCell(s.board, i, j)
  {
    ClassicLife.CountMatchesWindow(s.board, i, j);
    assert At(Next(s, rng, gen, params), i, j) == Target(s, rng, gen, params, i, j);
  }

  /** Every cell carries the default thresholds. */
  ghost predicate AllDefaults(s: State)
    requires Valid(s)
  {
    forall x, y :: 0 <= x < |s.board| && 0 <= y < |s.board[0]| ==> At(s, x, y).th == Defaults
  }

  /**
   * With mutation switched off every cell keeps the default thresholds, so the
   * run is the classic Game of Life on the interior, with a dead border.
   */
  lemma {:induction false} ClassicRegression(b: Board, rng: Oracle, params: MutationParams, k: nat)
    requires Rect(b) && NeverMutates(rng, params)
    ensures AllDefaults(Run(Init(b), rng, params, k))
    ensures forall x, y :: 0 <= x < |b| && 0 <= y < |b[0]| ==>
              Run(Init(b), rng, params, k + 1).board[x][y] ==
              (Interior(|b|, |b[0]|, x, y) && ClassicLife.UpdateCell(Run(Init(b), rng, params, k).board, x, y))
  {
    var s := Run(Init(b), rng, params, k);
    if k > 0 {
      ClassicRegression(b, rng, params, k - 1);
      var r := Run(Init(b), rng, params, k - 1);
      forall x, y | 0 <= x < |b| && 0 <= y < |b[0]|
        ensures At(s, x, y).th == Defaults
      {
        assert At(s, x, y) == Target(r, rng, k - 1, params, x, y);
        if Interior(|b|, |b[0]|, x, y) && !r.board[x][y] && s.board[x][y] && NeighborCount(r.board, x, y) > 0 {
          var p := Parent(r.board, x, y, rng(k - 1, x, y));
          assert params.rate <= rng(k - 1, x, y).u;
        }
      }
    }
    forall x, y | 0 <= x < |b| && 0 <= y < |b[0]|
      ensures Run(Init(b), rng, params, k + 1).board[x][y] ==
              (Interior(|b|, |b[0]|, x, y) && ClassicLife.UpdateCell(s.board, x, y))
    {
      if Interior(|b|, |b[0]|, x, y) {
        MatchesClassic(s, rng, k, params, x, y);
      } else {
        assert At(Run(Init(b), rng, params, k + 1), x, y) == Target(s, rng, k, params, x, y);
      }
    }
  }
}
