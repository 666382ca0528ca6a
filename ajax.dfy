/** The poll back-off at the top of `ajaxCheckPid` (web/js/ajax_utils.js):
    the delay before the next status request, in milliseconds. */
module AjaxUtils {
  import opened GoStrings

  const Limit := 10000
  const Increment := 4000
  const Initial := 2000

  /** The new wait for the previous interval as `parseInt` reads it; `None`
      stands for NaN, which fails both comparisons. */
  function NextWait(interval: Option<int>): (w: int)
    ensures w <= Limit
    ensures interval.Some? && interval.value + Increment < Limit ==> w == interval.value + Increment
    ensures interval.Some? && interval.value == Limit ==> w == Initial
    ensures interval.None? || (interval.value + Increment >= Limit && interval.value != Limit) ==> w == Limit
  {
    match interval
    case None => Limit
    case Some(wait) =>
      if wait + Increment < Limit then wait + Increment
      else if wait == Limit then Initial
      else Limit
  }

  /** The wait after `n` further polls. */
  function Waits(wait: int, n: nat): int
    decreases n
  {
    if n == 0 then wait else Waits(NextWait(Some(wait)), n - 1)
  }

  /** Starting from the initial wait the delays cycle 2000, 6000, 10000. */
  lemma WaitCycle()
    ensures NextWait(Some(Initial)) == 6000
    ensures NextWait(Some(6000)) == Limit
    ensures NextWait(Some(Limit)) == Initial
    ensures forall n: nat :: Waits(Initial, 3 * n) == Initial
  {
    forall n: nat ensures Waits(Initial, 3 * n) == Initial {
      CycleRepeats(n);
    }
  }

  lemma {:induction false} CycleRepeats(n: nat)
    ensures Waits(Initial, 3 * n) == Initial
  {
    if n > 0 {
      CycleRepeats(n - 1);
      WaitsSplit(Initial, 3 * (n - 1), 3);
      assert Waits(Initial, 3) == Initial;
    }
  }

  lemma {:induction false} WaitsSplit(wait: int, m: nat, n: nat)
    ensures Waits(wait, m + n) == Waits(Waits(wait, m), n)
    decreases m
  {
    if m > 0 {
      WaitsSplit(NextWait(Some(wait)), m - 1, n);
    }
  }

  /** From any whole-number interval the delay reaches the limit, and from
      then on it follows the cycle. */
  lemma {:induction false} ReachesLimit(wait: int)
    ensures exists n: nat :: Waits(wait, n) == Limit
    decreases Limit - wait
  {
    if wait + Increment >= Limit {
      if wait == Limit {
        assert Waits(wait, 0) == Limit;
      } else {
        assert Waits(wait, 1) == Limit;
      }
    } else {
      ReachesLimit(wait + Increment);
      var n: nat :| Waits(wait + Increment, n) == Limit;
      assert Waits(wait, n + 1) == Limit;
    }
  }
}
