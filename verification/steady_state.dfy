/**
 * The steady-state detector of the later engines: a counter of consecutive
 * generations whose board equals the previous generation's board, reset on
 * any change; the run stops when it reaches ten.
 */
module SteadyState {

  /** Consecutive unchanged generations after which the engines stop. */
  const Required: nat := 10

  /**
   * The counter after generation n of a board history `h` (the initial board
   * followed by one board per generation): it grows by one when board n
   * equals board n - 1 and drops to zero otherwise.
   */
  function Streak<T(==)>(h: seq<T>, n: nat): (c: nat)
    requires n < |h|
    ensures c <= n
  {
    if n == 0 then 0
    else if h[n] == h[n - 1] then Streak(h, n - 1) + 1
    else 0
  }

  /**
   * The counter after generation n is at least k exactly when the last k
   * generations up to n all left the board unchanged.
   */
  lemma {:induction false} StreakCountsRepeats<T>(h: seq<T>, n: nat, k: nat)
    requires k <= n < |h|
    ensures Streak(h, n) >= k <==> forall m :: n - k <= m < n ==> h[m] == h[m + 1]
  {
    if k > 0 && h[n] == h[n - 1] {
      StreakCountsRepeats(h, n - 1, k - 1);
    }
  }

  /**
   * Where a run whose board history would be `h` stops, scanning on from
   * generation k: at the first generation n > k whose counter reaches
   * `Required`, or at the last generation when there is none.
   */
  function StopPoint<T(==)>(h: seq<T>, k: nat): (n: nat)
    requires k < |h|
    ensures k <= n < |h|
    decreases |h| - k
  {
    if k == |h| - 1 then k
    else if Streak(h, k + 1) >= Required then k + 1
    else StopPoint(h, k + 1)
  }

  /** The stop point is the first generation after k that completes the streak, or the last generation. */
  lemma {:induction false} StopPointIsFirst<T>(h: seq<T>, k: nat)
    requires k < |h|
    ensures var n := StopPoint(h, k);
            k <= n < |h| &&
            (forall m :: k < m < n ==> Streak(h, m) < Required) &&
            (n < |h| - 1 ==> k < n && Streak(h, n) >= Required)
    decreases |h| - k
  {
    if k < |h| - 1 && Streak(h, k + 1) < Required {
      StopPointIsFirst(h, k + 1);
    }
  }

  /**
   * One more generation of the counter: it grows when board n + 1 repeats
   * board n and resets otherwise; a run still going at n stops at n + 1
   * exactly when the counter reaches `Required` there.
   */
  lemma StreakAdvances<T>(h: seq<T>, n: nat, steady: nat)
    requires n + 1 < |h| && steady == Streak(h, n) && steady < Required
    requires StopPoint(h, n) == StopPoint(h, 0)
    ensures var c := if h[n + 1] == h[n] then steady + 1 else 0;
            c == Streak(h, n + 1) && c <= Required &&
            (c == Required ==> StopPoint(h, 0) == n + 1) &&
            (c < Required ==> StopPoint(h, n + 1) == StopPoint(h, 0))
  {
  }
}
