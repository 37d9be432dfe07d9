/**
 * The radiation engine (radiation_function.py): the float-threshold engine
 * with an integer damage field. The intended design: every fourth
 * generation a live cell takes a dose of `rad_strength`; each generation
 * its damage decays by born / 20, never below zero; on generations with
 * (gen + 2) % 4 == 0 a live cell with positive damage dies whatever its
 * neighbour count. As the code is written, the decay overwrites the dose,
 * so damage stays zero and radiation never kills; a run chooses either
 * reading through `Radiation.asWritten`. A dead cell is born when its
 * neighbour count equals the rounded `born` of a randomly chosen live
 * parent, and inherits the parent's damage.
 */
module RadiationLife {
  import opened Grid
  import opened Inheritance
  import opened SteadyState

  /** The board, its three float threshold arrays and its integer damage array. */
  datatype State = State(board: Board, lonely: Field<real>, born: Field<real>, crowded: Field<real>, damage: Field<int>)

  datatype Cell = Cell(alive: bool, th: Thresholds<real>, damage: int)

  /** The thresholds every cell starts with: this engine starts `born` at 2. */
  const Start: Thresholds<real> := Thresholds(2.0, 2.0, 3.0)

  predicate Valid(s: State)
  {
    Rect(s.board) &&
    Shaped(s.lonely, |s.board|, |s.board[0]|) &&
    Shaped(s.born, |s.board|, |s.board[0]|) &&
    Shaped(s.crowded, |s.board|, |s.board[0]|) &&
    Shaped(s.damage, |s.board|, |s.board[0]|)
  }

  predicate SameShape(s: State, t: State)
    requires Valid(s)
  {
    Valid(t) && |t.board| == |s.board| && |t.board[0]| == |s.board[0]|
  }

  function At(s: State, x: nat, y: nat): Cell
    requires Valid(s) && x < |s.board| && y < |s.board[0]|
  {
    Cell(s.board[x][y], Thresholds(s.lonely[x][y], s.born[x][y], s.crowded[x][y]), s.damage[x][y])
  }

  function Put(s: State, i: nat, j: nat, c: Cell): (t: State)
    requires Valid(s) && i < |s.board| && j < |s.board[0]|
    ensures SameShape(s, t)
    ensures forall x, y :: 0 <= x < |s.board| && 0 <= y < |s.board[0]| ==>
              At(t, x, y) == if x == i && y == j then c else At(s, x, y)
  {
    State(Set2(s.board, i, j, c.alive), Set2(s.lonely, i, j, c.th.lonely),
          Set2(s.born, i, j, c.th.born), Set2(s.crowded, i, j, c.th.crowded),
          Set2(s.damage, i, j, c.damage))
  }

  lemma Ext(s: State, t: State)
    requires Valid(s) && SameShape(s, t)
    requires forall x, y :: 0 <= x < |s.board| && 0 <= y < |s.board[0]| ==> At(s, x, y) == At(t, x, y)
    ensures s == t
  {
    var rows, cols := |s.board|, |s.board[0]|;
    forall x, y | 0 <= x < rows && 0 <= y < cols
      ensures s.board[x][y] == t.board[x][y] && s.lonely[x][y] == t.lonely[x][y]
      ensures s.born[x][y] == t.born[x][y] && s.crowded[x][y] == t.crowded[x][y]
      ensures s.damage[x][y] == t.damage[x][y]
    {
      assert At(s, x, y) == At(t, x, y);
    }
    FieldExt(s.board, t.board, rows, cols);
    FieldExt(s.lonely, t.lonely, rows, cols);
    FieldExt(s.born, t.born, rows, cols);
    FieldExt(s.crowded, t.crowded, rows, cols);
    FieldExt(s.damage, t.damage, rows, cols);
  }

  function Init(b: Board): (s: State)
    requires Rect(b)
    ensures Valid(s) && s.board == b
    ensures forall x, y :: 0 <= x < |b| && 0 <= y < |b[0]| ==> At(s, x, y).th == Start && At(s, x, y).damage == 0
  {
    State(b, Filled(|b|, |b[0]|, 2.0), Filled(|b|, |b[0]|, 2.0), Filled(|b|, |b[0]|, 3.0), Filled(|b|, |b[0]|, 0))
  }

  /** `max(0, x)`. */
  function Max0(x: real): real
  {
    if x > 0.0 then x else 0.0
  }

  /**
   * The radiation settings of a run: the dose `rad_strength`, and whether
   * live cells keep their damage as radiation_function.py:74-78 is written
   * (`DecayAsWritten`) or with the dose kept (`Decay`).
   */
  datatype Radiation = Radiation(strength: int, asWritten: bool)

  /**
   * A live cell's damage after the dose of generation `gen`: `rad_strength`
   * is added on every fourth generation and on no other.
   */
  function Dosed(damage: int, gen: nat, dose: int): (r: int)
    ensures gen % 4 == 0 ==> r == damage + dose
    ensures gen % 4 != 0 ==> r == damage
    ensures dose != 0 ==> (r != damage <==> gen % 4 == 0)
  {
    if gen % 4 == 0 then damage + dose else damage
  }

  /**
   * The damage a live cell keeps, as radiation_function.py:74-78 is written:
   * the decay is recomputed from the old damage, so the dose stored just
   * before is overwritten and never counts.
   */
  function DecayAsWritten(damage: int, born: real): (r: int)
    ensures 0 <= r
    ensures 0 <= damage && 0.0 <= born ==> r <= damage
  {
    Trunc(Max0(damage as real - born / 20.0))
  }

  /**
   * The damage a live cell keeps, as intended: the dose is added, then the
   * cell recovers by born / 20, never below zero, and the result is stored
   * in the integer damage array.
   */
  function Decay(damage: int, born: real, gen: nat, dose: int): (r: int)
    ensures 0 <= r
    ensures 0.0 <= born ==> r <= if Dosed(damage, gen, dose) > 0 then Dosed(damage, gen, dose) else 0
    ensures 0.0 <= born <= 20.0 ==> r >= Dosed(damage, gen, dose) - 1
  {
    Trunc(Max0(Dosed(damage, gen, dose) as real - born / 20.0))
  }

  /** The damage a live cell keeps in generation `gen` under the chosen reading of the decay. */
  function Kept(damage: int, born: real, gen: nat, rad: Radiation): (r: int)
    ensures 0 <= r
  {
    if rad.asWritten then DecayAsWritten(damage, born) else Decay(damage, born, gen, rad.strength)
  }

  /**
   * Radiation kills a live cell whose new damage is positive on the check
   * generations, which fall midway between two dose generations.
   */
  function RadiationDeath(damage: int, gen: nat): (dies: bool)
    ensures dies <==> damage > 0 && gen >= 2 && Dosed(0, gen - 2, 1) == 1 && Dosed(0, gen + 2, 1) == 1
  {
    (gen + 2) % 4 == 0 && damage > 0
  }

  /**
   * As written, the dose is lost for one cell and one generation: an
   * undamaged cell with a non-negative `born` stays undamaged whatever the
   * dose, so radiation does not kill it; a dose of 5 on generation 4 leaves
   * the damage at 0 where 4 was meant.
   */
  lemma DoseLostAsWritten(born: real, gen: nat)
    requires 0.0 <= born
    ensures DecayAsWritten(0, born) == 0 && !RadiationDeath(DecayAsWritten(0, born), gen)
    ensures DecayAsWritten(0, 2.0) == 0 && Decay(0, 2.0, 4, 5) == 4
  {
    assert Max0(5.0 - 2.0 / 20.0) == 4.9;
  }

  /**
   * With the dose kept, a dose of at least 4 on a dosing generation kills a
   * cell that is still alive two generations later, at the next check.
   */
  lemma DoseForcesDeath(damage: int, born: real, gen: nat, dose: int)
    requires 0 <= damage && 0.0 <= born <= 8.0 && gen % 4 == 0 && dose >= 4
    ensures RadiationDeath(Decay(Decay(Decay(damage, born, gen, dose), born, gen + 1, dose), born, gen + 2, dose), gen + 2)
  {
    var d1 := Decay(damage, born, gen, dose);
    var d2 := Decay(d1, born, gen + 1, dose);
    assert Dosed(d1, gen + 1, dose) == d1;
    assert Dosed(d2, gen + 2, dose) == d2;
  }

  /** The new value of an interior cell in generation `gen`, from the previous state only. */
  function NextCell(s: State, i: nat, j: nat, d: Draw, params: MutationParams, gen: nat, rad: Radiation): (c: Cell)
    requires Valid(s) && Interior(|s.board|, |s.board[0]|, i, j)
    ensures s.board[i][j] ==>
              var damage := Kept(s.damage[i][j], s.born[i][j], gen, rad);
              (c.alive <==> Round(s.lonely[i][j]) <= NeighborCount(s.board, i, j) <= Round(s.crowded[i][j]) &&
                            !RadiationDeath(damage, gen)) &&
              (c.alive ==> c == Cell(true, At(s, i, j).th, damage)) &&
              (!c.alive ==> c == Cell(false, DeathReset, 0))
    ensures !s.board[i][j] && NeighborCount(s.board, i, j) == 0 ==> c == At(s, i, j)
    ensures !s.board[i][j] && NeighborCount(s.board, i, j) > 0 ==>
              var p := Parent(s.board, i, j, d);
              (c.alive <==> NeighborCount(s.board, i, j) == Round(s.born[p.0][p.1])) &&
              (c.alive ==> c == Cell(true, Mutated(Inherit(At(s, p.0, p.1).th), d, params), s.damage[p.0][p.1])) &&
              (!c.alive ==> c == At(s, i, j))
  {
    var n := NeighborCount(s.board, i, j);
    var here := At(s, i, j);
    if here.alive then
      var damage := Kept(here.damage, here.th.born, gen, rad);
      if n < Round(here.th.lonely) || n > Round(here.th.crowded) || RadiationDeath(damage, gen) then
        Cell(false, DeathReset, 0)
      else Cell(true, here.th, damage)
    else if n > 0 then
      var p := Parent(s.board, i, j, d);
      var parent := At(s, p.0, p.1);
      if n == Round(parent.th.born) then Cell(true, Mutated(Inherit(parent.th), d, params), parent.damage)
      else here
    else here
  }

  function Target(s: State, rng: Oracle, gen: nat, params: MutationParams, rad: Radiation, x: nat, y: nat): Cell
    requires Valid(s) && x < |s.board| && y < |s.board[0]|
  {
    if Interior(|s.board|, |s.board[0]|, x, y) then NextCell(s, x, y, rng(gen, x, y), params, gen, rad)
    else Cell(false, At(s, x, y).th, At(s, x, y).damage)
  }

  /** `t` is what generation `gen` makes of `s`: every cell is its target. */
  ghost predicate IsNext(s: State, rng: Oracle, gen: nat, params: MutationParams, rad: Radiation, t: State)
    requires Valid(s)
  {
    SameShape(s, t) &&
    forall x, y {:trigger Target(s, rng, gen, params, rad, x, y)} :: 0 <= x < |s.board| && 0 <= y < |s.board[0]| ==> At(t, x, y) == Target(s, rng, gen, params, rad, x, y)
  }

  /** A state built field by field from the targets, so one always exists. */
  function Build(s: State, rng: Oracle, gen: nat, params: MutationParams, rad: Radiation): (t: State)
    requires Valid(s)
    ensures IsNext(s, rng, gen, params, rad, t)
  {
    var rows, cols := |s.board|, |s.board[0]|;
    State(
      seq(rows, x requires 0 <= x < rows => seq(cols, y requires 0 <= y < cols => Target(s, rng, gen, params, rad, x, y).alive)),
      seq(rows, x requires 0 <= x < rows => seq(cols, y requires 0 <= y < cols => Target(s, rng, gen, params, rad, x, y).th.lonely)),
      seq(rows, x requires 0 <= x < rows => seq(cols, y requires 0 <= y < cols => Target(s, rng, gen, params, rad, x, y).th.born)),
      seq(rows, x requires 0 <= x < rows => seq(cols, y requires 0 <= y < cols => Target(s, rng, gen, params, rad, x, y).th.crowded)),
      seq(rows, x requires 0 <= x < rows => seq(cols, y requires 0 <= y < cols => Target(s, rng, gen, params, rad, x, y).damage)))
  }

  /**
   * Generation `gen` (counted from 1): every interior cell is computed from
   * the previous state alone; every border cell of the new board is dead and
   * keeps its thresholds and damage. The state is characterised cell by
   * cell, which `Ext` shows determines it.
   * `Build` constructs this state; `Next` refers to it only through the
   * cell-wise characterisation, so that proofs about a generation reason one
   * cell at a time instead of unfolding the field comprehensions.
   */
  ghost function Next(s: State, rng: Oracle, gen: nat, params: MutationParams, rad: Radiation): (t: State)
    requires Valid(s)
    ensures SameShape(s, t)
    ensures forall x, y {:trigger Target(s, rng, gen, params, rad, x, y)} :: 0 <= x < |s.board| && 0 <= y < |s.board[0]| ==>
              At(t, x, y) == Target(s, rng, gen, params, rad, x, y)
  {
    var w := Build(s, rng, gen, params, rad);
    assert IsNext(s, rng, gen, params, rad, w);
    var t :| IsNext(s, rng, gen, params, rad, t);
    t
  }

  /** The border of every new board is dead and keeps its thresholds and damage: only interior cells are written. */
  lemma BorderDies(s: State, rng: Oracle, gen: nat, params: MutationParams, rad: Radiation, x: nat, y: nat)
    requires Valid(s) && x < |s.board| && y < |s.board[0]| && !Interior(|s.board|, |s.board[0]|, x, y)
    ensures var t := Next(s, rng, gen, params, rad);
            !t.board[x][y] && At(t, x, y).th == At(s, x, y).th && At(t, x, y).damage == At(s, x, y).damage
  {
    assert At(Next(s, rng, gen, params, rad), x, y) == Target(s, rng, gen, params, rad, x, y);
  }

  /** The body of the generation loop: fresh copies, interior cells written in row-major order. */
  method Step(s: State, rng: Oracle, gen: nat, params: MutationParams, rad: Radiation) returns (t: State)
    requires Valid(s)
    ensures t == Next(s, rng, gen, params, rad)
  {
    var rows, cols := |s.board|, |s.board[0]|;
    t := State(Filled(rows, cols, false), s.lonely, s.born, s.crowded, s.damage);
    var i := 1;
    while i < rows - 1
      invariant 1 <= i
      invariant SameShape(s, t)
      invariant forall x, y :: 0 <= x < rows && 0 <= y < cols ==>
                  At(t, x, y) == if x < i then Target(s, rng, gen, params, rad, x, y)
                                 else Cell(false, At(s, x, y).th, At(s, x, y).damage)
    {
      var j := 1;
      while j < cols - 1
        invariant 1 <= j
        invariant SameShape(s, t)
        invariant forall x, y :: 0 <= x < rows && 0 <= y < cols ==>
                    At(t, x, y) == if x < i || (x == i && y < j) then Target(s, rng, gen, params, rad, x, y)
                                   else Cell(false, At(s, x, y).th, At(s, x, y).damage)
      {
        t := Put(t, i, j, NextCell(s, i, j, rng(gen, i, j), params, gen, rad));
        j := j + 1;
      }
      i := i + 1;
    }
    forall x, y | 0 <= x < rows && 0 <= y < cols
      ensures At(t, x, y) == At(Next(s, rng, gen, params, rad), x, y)
    {
      assert At(t, x, y) == Target(s, rng, gen, params, rad, x, y);
    }
    Ext(t, Next(s, rng, gen, params, rad));
  }

  /** The state after k generations; generation k uses the draws of generation number k. */
  ghost function Run(init: State, rng: Oracle, params: MutationParams, rad: Radiation, k: nat): (s: State)
    requires Valid(init)
    ensures SameShape(init, s)
  {
    if k == 0 then init else Next(Run(init, rng, params, rad, k - 1), rng, k, params, rad)
  }

  /** The boards of generations 0 to n. */
  ghost function History(init: State, rng: Oracle, params: MutationParams, rad: Radiation, n: nat): (h: seq<Board>)
    requires Valid(init)
    ensures |h| == n + 1 && h[0] == init.board
  {
    if n == 0 then [init.board] else History(init, rng, params, rad, n - 1) + [Run(init, rng, params, rad, n).board]
  }

  /** Entry k of the history is the board of generation k. */
  lemma {:induction false} HistoryAt(init: State, rng: Oracle, params: MutationParams, rad: Radiation, n: nat, k: nat)
    requires Valid(init) && k <= n
    ensures History(init, rng, params, rad, n)[k] == Run(init, rng, params, rad, k).board
  {
    if k < n {
      HistoryAt(init, rng, params, rad, n - 1, k);
    }
  }

  /** Live thresholds lie in [0, 8] and no damage is negative. */
  ghost predicate Sound(s: State)
    requires Valid(s)
  {
    forall x, y :: 0 <= x < |s.board| && 0 <= y < |s.board[0]| ==>
      (s.board[x][y] ==> InRange(At(s, x, y).th)) && s.damage[x][y] >= 0
  }

  /**
   * A generation keeps the state sound: decay never goes below zero, a death
   * resets the damage to zero, and a newborn inherits a live parent's
   * thresholds and damage.
   */
  lemma NextKeepsSound(s: State, rng: Oracle, gen: nat, params: MutationParams, rad: Radiation)
    requires Valid(s) && Sound(s)
    ensures Sound(Next(s, rng, gen, params, rad))
  {
    var t := Next(s, rng, gen, params, rad);
    forall x, y | 0 <= x < |s.board| && 0 <= y < |s.board[0]|
      ensures (t.board[x][y] ==> InRange(At(t, x, y).th)) && t.damage[x][y] >= 0
    {
      assert At(t, x, y) == Target(s, rng, gen, params, rad, x, y);
      if Interior(|s.board|, |s.board[0]|, x, y) && !s.board[x][y] && NeighborCount(s.board, x, y) > 0 {
        var p := Parent(s.board, x, y, rng(gen, x, y));
        assert InRange(At(s, p.0, p.1).th) && s.damage[p.0][p.1] >= 0;
      }
    }
  }

  /** A run that starts sound, as `Init` does, stays sound in every generation. */
  lemma {:induction false} RunKeepsSound(init: State, rng: Oracle, params: MutationParams, rad: Radiation, k: nat)
    requires Valid(init) && Sound(init)
    ensures Sound(Run(init, rng, params, rad, k))
  {
    if k > 0 {
      var r := Run(init, rng, params, rad, k - 1);
      RunKeepsSound(init, rng, params, rad, k - 1);
      NextKeepsSound(r, rng, k, params, rad);
      assert Run(init, rng, params, rad, k) == Next(r, rng, k, params, rad);
    }
  }

  /** Every cell's damage is zero. */
  ghost predicate Undamaged(s: State)
    requires Valid(s)
  {
    forall x, y :: 0 <= x < |s.board| && 0 <= y < |s.board[0]| ==> s.damage[x][y] == 0
  }

  /**
   * As written, a generation leaves a sound, undamaged state undamaged: a
   * survivor's damage is recomputed from its old damage of zero, a death
   * resets it to zero, and a newborn copies an undamaged parent.
   */
  lemma NextKeepsUndamagedAsWritten(s: State, rng: Oracle, gen: nat, params: MutationParams, rad: Radiation)
    requires Valid(s) && Sound(s) && Undamaged(s) && rad.asWritten
    ensures Undamaged(Next(s, rng, gen, params, rad))
  {
    var t := Next(s, rng, gen, params, rad);
    forall x, y | 0 <= x < |s.board| && 0 <= y < |s.board[0]|
      ensures t.damage[x][y] == 0
    {
      assert At(t, x, y) == Target(s, rng, gen, params, rad, x, y);
      if Interior(|s.board|, |s.board[0]|, x, y) {
        if s.board[x][y] {
          assert InRange(At(s, x, y).th);
        } else if NeighborCount(s.board, x, y) > 0 {
          var p := Parent(s.board, x, y, rng(gen, x, y));
          assert s.damage[p.0][p.1] == 0;
        }
      }
    }
  }

  /** As written, every generation of a run from `Init` is sound and undamaged, whatever the dose. */
  lemma {:induction false} RunUndamagedAsWritten(b: Board, rng: Oracle, params: MutationParams, rad: Radiation, k: nat)
    requires Rect(b) && rad.asWritten
    ensures Sound(Run(Init(b), rng, params, rad, k)) && Undamaged(Run(Init(b), rng, params, rad, k))
  {
    if k > 0 {
      var r := Run(Init(b), rng, params, rad, k - 1);
      RunUndamagedAsWritten(b, rng, params, rad, k - 1);
      NextKeepsSound(r, rng, k, params, rad);
      NextKeepsUndamagedAsWritten(r, rng, k, params, rad);
      assert Run(Init(b), rng, params, rad, k) == Next(r, rng, k, params, rad);
    }
  }

  /**
   * As written, radiation never kills: in every generation of a run from
   * `Init`, a live interior cell survives exactly when its neighbour count
   * lies between its rounded thresholds, whatever the dose.
   */
  lemma RadiationNeverKillsAsWritten(b: Board, rng: Oracle, params: MutationParams, rad: Radiation, k: nat, i: nat, j: nat)
    requires Rect(b) && rad.asWritten && Interior(|b|, |b[0]|, i, j)
    requires Run(Init(b), rng, params, rad, k).board[i][j]
    ensures var s := Run(Init(b), rng, params, rad, k);
            Run(Init(b), rng, params, rad, k + 1).board[i][j] <==>
            Round(s.lonely[i][j]) <= NeighborCount(s.board, i, j) <= Round(s.crowded[i][j])
  {
    RunUndamagedAsWritten(b, rng, params, rad, k);
    var s := Run(Init(b), rng, params, rad, k);
    assert InRange(At(s, i, j).th) && s.damage[i][j] == 0;
    assert Run(Init(b), rng, params, rad, k + 1) == Next(s, rng, k + 1, params, rad);
    assert At(Next(s, rng, k + 1, params, rad), i, j) == Target(s, rng, k + 1, params, rad, i, j);
  }

  /**
   * The driver's bookkeeping after |boards| generations: `s` is the state,
   * `boards` and `population` record generations 1 to |boards|, and `steady`
   * is the counter; the run has stopped exactly when the counter is ten.
   */
  ghost predicate Recorded(init: State, rng: Oracle, params: MutationParams, rad: Radiation, numGens: nat,
                           s: State, boards: seq<Board>, population: seq<nat>, steady: nat)
    requires Valid(init)
  {
    var h := History(init, rng, params, rad, numGens);
    |boards| <= numGens && s == Run(init, rng, params, rad, |boards|) &&
    boards == h[1..|boards| + 1] &&
    |population| == |boards| && (forall k :: 0 <= k < |boards| ==> population[k] == Population(boards[k])) &&
    steady == Streak(h, |boards|) && steady <= Required &&
    (steady < Required ==> StopPoint(h, |boards|) == StopPoint(h, 0)) &&
    (steady == Required ==> |boards| == StopPoint(h, 0))
  }

  /** One pass of the generation loop: the next state, its board and population recorded, the counter updated. */
  method Turn(ghost init: State, s: State, rng: Oracle, params: MutationParams, rad: Radiation, ghost numGens: nat,
              boards: seq<Board>, population: seq<nat>, steady: nat)
    returns (t: State, boards': seq<Board>, population': seq<nat>, steady': nat)
    requires Valid(init) && Recorded(init, rng, params, rad, numGens, s, boards, population, steady)
    requires |boards| < numGens && steady < Required
    ensures |boards'| == |boards| + 1
    ensures Recorded(init, rng, params, rad, numGens, t, boards', population', steady')
  {
    ghost var h := History(init, rng, params, rad, numGens);
    var done := |boards|;
    t := Step(s, rng, done + 1, params, rad);
    HistoryAt(init, rng, params, rad, numGens, done);
    HistoryAt(init, rng, params, rad, numGens, done + 1);
    boards' := boards + [t.board];
    population' := population + [Population(t.board)];
    StreakAdvances(h, done, steady);
    steady' := if t.board == s.board then steady + 1 else 0;
    assert boards' == h[1..done + 2];
  }

  /** What the driver reports; the threshold means are not modelled. */
  datatype Outcome = Outcome(gens: nat, population: seq<nat>, final: State, finalPopulation: nat, boards: seq<Board>)

  /**
   * `play_game_of_life_with_radiation`: generation by generation, records each
   * new board and its population and counts consecutive unchanged
   * generations; stops when the count reaches ten, reporting one more than
   * the generation number, and otherwise reports `num_gens`.
   */
  method PlayGameOfLifeWithRadiation(initial: Board, numGens: nat, params: MutationParams, rad: Radiation, rng: Oracle)
    returns (r: Outcome)
    requires Rect(initial)
    ensures |r.boards| <= numGens && |r.boards| == StopPoint(History(Init(initial), rng, params, rad, numGens), 0)
    ensures r.boards == History(Init(initial), rng, params, rad, numGens)[1..|r.boards| + 1]
    ensures |r.population| == |r.boards|
    ensures forall k :: 0 <= k < |r.boards| ==> r.population[k] == Population(r.boards[k])
    ensures r.final == Run(Init(initial), rng, params, rad, |r.boards|)
    ensures r.finalPopulation == Population(r.final.board)
    ensures r.gens == if Streak(History(Init(initial), rng, params, rad, numGens), |r.boards|) >= Required
                      then |r.boards| + 1 else numGens
  {
    var s := Init(initial);
    ghost var init := s;
    var boards: seq<Board> := [];
    var population: seq<nat> := [];
    var steady: nat := 0;
    while |boards| < numGens
      invariant Recorded(init, rng, params, rad, numGens, s, boards, population, steady) && steady < Required
    {
      s, boards, population, steady := Turn(init, s, rng, params, rad, numGens, boards, population, steady);
      if steady == Required {
        return Outcome(|boards| + 1, population, s, Population(s.board), boards);
      }
    }
    return Outcome(numGens, population, s, Population(s.board), boards);
  }
}
