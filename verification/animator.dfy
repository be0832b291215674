/** The ratio animator: an effect that, whenever the outcome changes, cancels the interval it
    armed for the previous outcome and, when the new outcome carries a ratio, arms a fresh
    interval that counts a local value up from 0 by one percentage point per tick, clamps it at
    the ratio and clears itself there. All values are hundredths of a percent. Timer ticks and
    cancellations are discrete events; the 10 ms period is not modelled. */
module RatioAnimator {
  import opened Options

  /** One percentage point, the amount added per tick. */
  const TickStep: int := 100

  /** The state captured by one interval callback: its running count and its target. */
  datatype Interval = Interval(count: int, target: int)

  /** `shown` is the displayed ratio; `live` holds the intervals not yet cleared, by timer id;
      `armed` is the id the current effect run will cancel in its cleanup; `nextId` is the id the
      next `setInterval` returns. */
  datatype Animator = Animator(shown: int, live: map<nat, Interval>, armed: Option<nat>, nextId: nat)

  /** Mount: the displayed ratio starts at 0 and no interval exists. */
  const Initial: Animator := Animator(0, map[], None, 1)

  /** One firing of an interval callback: add a point; on reaching or passing the target, take
      the target and stop. Returns the new count and whether the interval keeps running. */
  function Tick(count: int, target: int): (int, bool) {
    if count + TickStep >= target then (target, false) else (count + TickStep, true)
  }

  /** The count of an interval with target `t` after `k` periods have elapsed, and whether it is
      still running; a cleared interval never fires again. */
  function Elapse(t: int, k: nat): (int, bool) {
    if k == 0 then (0, true)
    else
      var (c, running) := Elapse(t, k - 1);
      if running then Tick(c, t) else (c, false)
  }

  /** The count after `k >= 1` periods is `min(k points, t)`, and the interval runs exactly while
      `k` points fall short of the target. */
  lemma {:induction false} ElapseClosedForm(t: int, k: nat)
    requires k >= 1
    ensures Elapse(t, k) == if k * TickStep >= t then (t, false) else (k * TickStep, true)
  {
    if k > 1 {
      ElapseClosedForm(t, k - 1);
    }
  }

  /** For a target of at least 0 the count stays within [0, t]. */
  lemma {:induction false} ElapseBounded(t: int, k: nat)
    requires t >= 0
    ensures 0 <= Elapse(t, k).0 <= t
  {
    if k >= 1 {
      ElapseClosedForm(t, k);
    }
  }

  /** For a target of at least 0 the count never decreases from one period to a later one. */
  lemma {:induction false} ElapseMonotone(t: int, j: nat, k: nat)
    requires t >= 0 && j <= k
    ensures Elapse(t, j).0 <= Elapse(t, k).0
  {
    if j >= 1 {
      ElapseClosedForm(t, j);
      ElapseClosedForm(t, k);
    } else {
      ElapseBounded(t, k);
    }
  }

  /** Number of ticks to reach `t > 0`: the ratio in percent rounded up. */
  function TicksToReach(t: int): (k: nat)
    requires t > 0
    ensures (k - 1) * TickStep < t <= k * TickStep
  {
    (t + TickStep - 1) / TickStep
  }

  /** A positive target is reached exactly after `TicksToReach(t)` ticks, the interval has then
      cleared itself, and before that the count is still below the target and running. */
  lemma ElapseReachesTarget(t: int, k: nat)
    requires t > 0
    ensures k >= TicksToReach(t) ==> Elapse(t, k) == (t, false)
    ensures k < TicksToReach(t) ==> Elapse(t, k).0 < t && Elapse(t, k).1
  {
    if k >= 1 {
      ElapseClosedForm(t, k);
    }
  }

  /** A target of at most one point, including a negative one, is taken on the first tick. */
  lemma {:induction false} ElapseSmallTarget(t: int)
    requires t <= TickStep
    ensures Elapse(t, 1) == (t, false)
  {
  }

  /** Timer ids of the interval this animator would cancel. */
  function ArmedIds(a: Animator): set<nat> {
    if a.armed.Some? then {a.armed.value} else {}
  }

  /** Well-formed animator: only the interval the current effect armed can be live, and ids are
      never reused. */
  predicate Wf(a: Animator) {
    && a.live.Keys <= ArmedIds(a)
    && (a.armed.Some? ==> a.armed.value < a.nextId)
  }

  /** In a well-formed animator at most one interval is live, so no two timers fight over the
      displayed ratio. */
  lemma AtMostOneTimer(a: Animator)
    requires Wf(a)
    ensures |a.live| <= 1
  {
    assert |ArmedIds(a)| <= 1;
    SubsetCard(a.live.Keys, ArmedIds(a));
  }

  lemma SubsetCard<T>(a: set<T>, b: set<T>)
    requires a <= b
    ensures |a| <= |b|
  {
    assert b == a + (b - a);
  }

  /** The effect re-run on a new outcome: the cleanup of the previous run cancels its interval;
      then an outcome with a ratio arms a fresh interval counting from 0 (the displayed value is
      left as it was until the first tick), and one without resets the display to 0. */
  function Restart(a: Animator, ratio: Option<int>): (b: Animator)
    requires Wf(a)
    ensures a.armed.Some? ==> a.armed.value !in b.live
    ensures forall id :: id in b.live ==> id in a.live || b.armed == Some(id)
    ensures ratio.None? ==> b.shown == 0 && b.armed.None? && b.live.Keys <= a.live.Keys
    ensures ratio.Some? ==> && b.shown == a.shown
                            && b.armed.Some? && b.armed.value !in a.live
                            && b.armed.value in b.live
                            && b.live[b.armed.value] == Interval(0, ratio.value)
    ensures Wf(b)
  {
    var cleaned := if a.armed.Some? then a.live - {a.armed.value} else a.live;
    match ratio
    case None => a.(shown := 0, live := cleaned, armed := None)
    case Some(t) =>
      var id := a.nextId;
      a.(live := cleaned[id := Interval(0, t)], armed := Some(id), nextId := id + 1)
  }

  /** A live interval fires: the display takes the new count, and the interval clears itself
      exactly when the display has reached its target. */
  function Fire(a: Animator, id: nat): (b: Animator)
    requires id in a.live
    ensures b.armed == a.armed && b.live.Keys <= a.live.Keys
    ensures id !in b.live <==> a.live[id].count + TickStep >= a.live[id].target
    ensures id !in b.live <==> b.shown == a.live[id].target
    ensures id in b.live ==> b.shown == a.live[id].count + TickStep
                             && b.live[id] == Interval(b.shown, a.live[id].target)
    ensures 0 <= a.live[id].count && 0 <= a.live[id].target ==> 0 <= b.shown <= a.live[id].target
    ensures forall j :: j in b.live ==> b.live[j].target == a.live[j].target
    ensures Wf(a) ==> Wf(b)
  {
    var iv := a.live[id];
    var (c, running) := Tick(iv.count, iv.target);
    a.(shown := c, live := if running then a.live[id := Interval(c, iv.target)] else a.live - {id})
  }

  /** Unmounting runs the last cleanup: afterwards no interval is live. */
  function Teardown(a: Animator): (b: Animator)
    ensures Wf(a) ==> b.live == map[]
    ensures b.shown == a.shown
  {
    a.(live := if a.armed.Some? then a.live - {a.armed.value} else a.live)
  }

  /** Fires the armed interval `k` times, skipping firings once it has cleared itself. */
  function FireArmed(a: Animator, k: nat): (c: Animator)
    ensures c.armed == a.armed
    ensures Wf(a) ==> Wf(c)
  {
    if k == 0 then a
    else
      var b := FireArmed(a, k - 1);
      if b.armed.Some? && b.armed.value in b.live then Fire(b, b.armed.value) else b
  }

  /** After a restart with ratio `t`, `k` ticks of the new interval follow `Elapse(t, k)`: the
      interval is live exactly while `Elapse` runs, holds its count, and from the first tick on
      the display shows that count. */
  lemma {:induction false} RestartFollowsElapse(a: Animator, t: int, k: nat)
    requires Wf(a)
    ensures var b := Restart(a, Some(t));
            var c := FireArmed(b, k);
            && c.armed == b.armed
            && (b.armed.value in c.live <==> Elapse(t, k).1)
            && (b.armed.value in c.live ==> c.live[b.armed.value] == Interval(Elapse(t, k).0, t))
            && (k >= 1 ==> c.shown == Elapse(t, k).0)
  {
    var b := Restart(a, Some(t));
    if k > 0 {
      RestartFollowsElapse(a, t, k - 1);
      var p := FireArmed(b, k - 1);
      if b.armed.value !in p.live {
        assert k - 1 >= 1;
      }
    }
  }

  /** Once enough ticks have passed the display stands exactly at a positive ratio `t` and the
      animation has stopped. */
  lemma AnimationSettles(a: Animator, t: int, k: nat)
    requires Wf(a) && t > 0 && k >= TicksToReach(t)
    ensures var c := FireArmed(Restart(a, Some(t)), k);
            c.shown == t && c.live == map[]
  {
    RestartFollowsElapse(a, t, k);
    ElapseReachesTarget(t, k);
  }
}
