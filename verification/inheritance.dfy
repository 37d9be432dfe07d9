/**
 * The inheritance and mutation operator shared by the evolvable engines:
 * the random draws made at a birth, parent selection, Python's rounding,
 * NumPy's clipping and the one-threshold mutation.
 *
 * Every random source is an explicit input. An `Oracle` gives, for each
 * generation and cell, the draws the engine would make there: which live
 * neighbour `random.choice` picks, the value of `random.random()`, which
 * threshold name `random.choice` picks and the standard normal sample that
 * `np.random.normal(0, 1)` returns.
 */
module Inheritance {
  import opened Grid

  datatype ThresholdName = Lonely | Born | Crowded

  /** The draws made at one cell in one generation. */
  datatype Draw = Draw(pick: nat, u: real, which: ThresholdName, noise: real)

  /** (generation, row, column) to the draws made there. */
  type Oracle = (nat, nat, nat) -> Draw

  /** `mutation_rate` and `mutation_magnitude`. */
  datatype MutationParams = MutationParams(rate: real, magnitude: real)

  /** The three heritable thresholds of a cell. */
  datatype Thresholds<T> = Thresholds(lonely: T, born: T, crowded: T)
  {
    function Get(name: ThresholdName): T
    {
      match name
      case Lonely => lonely
      case Born => born
      case Crowded => crowded
    }
  }

  /** Mutation never fires under these draws: `random.random() < mutation_rate` is always false. */
  ghost predicate NeverMutates(rng: Oracle, params: MutationParams)
  {
    forall g, x, y :: params.rate <= rng(g, x, y).u
  }

  /** `random.choice(live)`: the parent named by the draw; every live neighbour can be named. */
  function Choose(live: seq<Pos>, pick: nat): (p: Pos)
    requires |live| > 0
    ensures p in live
  {
    live[pick % |live|]
  }

  lemma ChooseReachesAll(live: seq<Pos>, p: Pos)
    requires p in live
    ensures exists pick: nat :: Choose(live, pick) == p
  {
    var k :| 0 <= k < |live| && live[k] == p;
    assert Choose(live, k) == p;
  }

  /** The live neighbour a newborn at (i, j) inherits from, as the draw picks it. */
  function Parent(b: Board, i: nat, j: nat, d: Draw): (p: Pos)
    requires InteriorOf(b, i, j) && NeighborCount(b, i, j) > 0
    ensures IsNeighbor(p, i, j) && b[p.0][p.1]
  {
    var live := LiveNeighbors(b, i, j);
    var p := Choose(live, d.pick);
    p
  }

  /**
   * Python's `round` to an integer: the nearest integer, ties to the even one.
   */
  function Round(x: real): (r: int)
    ensures x - 0.5 <= r as real <= x + 0.5
    ensures (r as real == x - 0.5 || r as real == x + 0.5) ==> r % 2 == 0
  {
    var f := x.Floor;
    var frac := x - f as real;
    if frac < 0.5 then f
    else if frac > 0.5 then f + 1
    else if f % 2 == 0 then f
    else f + 1
  }

  /** `np.clip(x, 0, 8)`: the point of [0, 8] nearest to x. */
  function Clip(x: real): (r: real)
    ensures 0.0 <= r <= 8.0
    ensures 0.0 <= x <= 8.0 ==> r == x
    ensures x < 0.0 ==> r == 0.0
    ensures x > 8.0 ==> r == 8.0
  {
    if x < 0.0 then 0.0 else if x > 8.0 then 8.0 else x
  }

  /** Storing a float into a NumPy integer array: truncation toward zero. */
  function Trunc(x: real): (r: int)
    ensures 0.0 <= x ==> 0 <= r && r as real <= x < r as real + 1.0
    ensures x < 0.0 ==> r <= 0 && r as real - 1.0 < x <= r as real
  {
    if x >= 0.0 then x.Floor else -((-x).Floor)
  }

  /** A threshold triple whose members all lie in [0, 8]. */
  predicate InRange(t: Thresholds<real>)
  {
    0.0 <= t.lonely <= 8.0 && 0.0 <= t.born <= 8.0 && 0.0 <= t.crowded <= 8.0
  }

  predicate InRangeInt(t: Thresholds<int>)
  {
    0 <= t.lonely <= 8 && 0 <= t.born <= 8 && 0 <= t.crowded <= 8
  }

  /**
   * The mutation step on float thresholds: when `random.random() <
   * mutation_rate`, the named threshold moves by `mutation_magnitude` times
   * the normal sample and is clipped to [0, 8]; the other two are kept.
   */
  function Mutated(t: Thresholds<real>, d: Draw, params: MutationParams): (r: Thresholds<real>)
    ensures d.u >= params.rate ==> r == t
    ensures d.u < params.rate ==>
              r.Get(d.which) == Clip(t.Get(d.which) + params.magnitude * d.noise)
    ensures forall name :: name != d.which ==> r.Get(name) == t.Get(name)
    ensures InRange(t) ==> InRange(r)
  {
    if d.u < params.rate then
      var delta := params.magnitude * d.noise;
      match d.which
      case Lonely => t.(lonely := Clip(t.lonely + delta))
      case Born => t.(born := Clip(t.born + delta))
      case Crowded => t.(crowded := Clip(t.crowded + delta))
    else t
  }

  /**
   * The same step on integer thresholds: the clipped float is truncated when
   * it is stored back into the integer array, so it stays in [0, 8].
   */
  function MutatedInt(t: Thresholds<int>, d: Draw, params: MutationParams): (r: Thresholds<int>)
    ensures d.u >= params.rate ==> r == t
    ensures d.u < params.rate ==>
              r.Get(d.which) == Trunc(Clip(t.Get(d.which) as real + params.magnitude * d.noise))
    ensures d.u < params.rate ==> 0 <= r.Get(d.which) <= 8
    ensures forall name :: name != d.which ==> r.Get(name) == t.Get(name)
    ensures InRangeInt(t) ==> InRangeInt(r)
  {
    if d.u < params.rate then
      var delta := params.magnitude * d.noise;
      match d.which
      case Lonely => t.(lonely := Trunc(Clip(t.lonely as real + delta)))
      case Born => t.(born := Trunc(Clip(t.born as real + delta)))
      case Crowded => t.(crowded := Trunc(Clip(t.crowded as real + delta)))
    else t
  }

  /** The thresholds a dying cell gets in the float-threshold engines: `born` becomes the sentinel -1. */
  const DeathReset: Thresholds<real> := Thresholds(2.0, -1.0, 3.0)

  /**
   * What a newborn of the float-threshold engines inherits before mutation:
   * the parent's `lonely` and `crowded`, and the parent's `born` rounded to
   * an integer.
   */
  function Inherit(t: Thresholds<real>): (r: Thresholds<real>)
    ensures r.lonely == t.lonely && r.crowded == t.crowded
    ensures t.born - 0.5 <= r.born <= t.born + 0.5 && r.born == r.born.Floor as real
    ensures InRange(t) ==> InRange(r)
  {
    t.(born := Round(t.born) as real)
  }
}
