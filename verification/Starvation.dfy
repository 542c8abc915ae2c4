/** No ready task starves: as long as no task is created, ended or changed in priority, every ready task
    runs within a bound that depends only on its position and the number of tasks on its and the higher
    levels. */
module Starvation {
  import opened TaskState
  import opened TaskSteps

  /** The tasks of level `k`, the running one included. */
  function Total(s: State, k: nat): nat
    requires Shape(s) && k < LEVELS
  {
    |s.queues.ready[k]| + if s.pool[s.running].priority == k && !s.pool[s.running].ended then 1 else 0
  }

  function Totals(s: State): (n: seq<nat>)
    requires Shape(s)
    ensures |n| == LEVELS && forall k :: 0 <= k < LEVELS ==> n[k] == Total(s, k)
  {
    seq(LEVELS, k requires 0 <= k < LEVELS => Total(s, k))
  }

  /** How often level `k` may still be picked before it has to let lower levels have a turn. */
  function Left(n: seq<nat>, executed: seq<nat>, k: nat): nat
    requires k < |n| == |executed|
  {
    if executed[k] < n[k] then n[k] - executed[k] else 0
  }

  function Weight(n: seq<nat>, k: nat): (w: nat)
    requires k <= |n|
    ensures w > 0
  {
    if k == 0 then 1 else MulPositive(Weight(n, k - 1), n[k - 1] + 1); Weight(n, k - 1) * (n[k - 1] + 1)
  }

  lemma MulPositive(a: nat, b: nat)
    requires a > 0 && b > 0
    ensures a * b > 0
  {
  }

  /** The levels above `k` in their order, the lowest of them weighing most. */
  function Rank(n: seq<nat>, executed: seq<nat>, k: nat): nat
    requires k <= |n| == |executed|
  {
    if k == 0 then 0 else Left(n, executed, k - 1) * Weight(n, k - 1) + Rank(n, executed, k - 1)
  }

  lemma {:induction false} RankBound(n: seq<nat>, executed: seq<nat>, k: nat)
    requires k <= |n| == |executed|
    ensures Rank(n, executed, k) < Weight(n, k)
  {
    if k == 0 {
    } else {
      RankBound(n, executed, k - 1);
      TimesMonotone(Left(n, executed, k - 1), n[k - 1], Weight(n, k - 1));
      Distribute(Weight(n, k - 1), n[k - 1]);
    }
  }

  lemma TimesMonotone(a: nat, b: nat, w: nat)
    requires a <= b
    ensures a * w <= b * w
  {
    assert (b - a) * w >= 0;
  }

  lemma Distribute(w: nat, a: nat)
    ensures w * (a + 1) == a * w + w
  {
  }

  /** Comparing the leading digit is enough. */
  lemma Below(a: nat, b: nat, w: nat, x: nat, y: nat)
    requires a < b && x < w
    ensures a * w + x < b * w + y
  {
    Distribute(w, a);
    TimesMonotone(a + 1, b, w);
  }

  /** A pick from a level above `k` lowers the rank, whatever is reset above it. */
  lemma {:induction false} RankDrops(n: seq<nat>, executed: seq<nat>, l: nat, k: nat)
    requires l < k <= |n| == |executed| && executed[l] < n[l]
    ensures Rank(n, Counted(executed, l), k) < Rank(n, executed, k)
  {
    var next := Counted(executed, l);
    if l == k - 1 {
      RankBound(n, next, l);
      Below(Left(n, next, l), Left(n, executed, l), Weight(n, l), Rank(n, next, l), Rank(n, executed, l));
    } else {
      RankDrops(n, executed, l, k - 1);
      assert Left(n, next, k - 1) == Left(n, executed, k - 1);
    }
  }

  /** Level `level` has had its turn. */
  predicate Exhausted(s: State, level: nat)
    requires Shape(s) && level < LEVELS
  {
    s.executed[level] >= |s.queues.ready[level]|
  }

  /** What goes down with every switch until the task at position `p` of a level runs. */
  function Measure(s: State, level: nat, p: nat): nat
    requires Shape(s) && level < LEVELS
  {
    (2 * p + if Exhausted(s, level) then 1 else 0) * Weight(Totals(s), level) + Rank(Totals(s), s.executed, level)
  }

  lemma MeasureBound(s: State, level: nat, p: nat)
    requires Shape(s) && level < LEVELS
    ensures Measure(s, level, p) < 2 * (p + 1) * Weight(Totals(s), level)
  {
    var n := Totals(s);
    var w := Weight(n, level);
    RankBound(n, s.executed, level);
    Below(2 * p + (if Exhausted(s, level) then 1 else 0), 2 * (p + 1), w, Rank(n, s.executed, level), 0);
  }

  ghost predicate At(s: State, level: nat, p: nat, t: nat) {
    |s.queues.ready| == LEVELS && level < LEVELS && p < |s.queues.ready[level]| && s.queues.ready[level][p] == t
  }

  /** A switch to a task of level `l` leaves the totals alone, shortens no other level's list, and moves
      the tasks of level `l` up by one. */
  lemma SwitchMoves(s: State, l: nat, executed: seq<nat>)
    requires Inv(s) && l < LEVELS && s.queues.ready[l] != [] && |executed| == LEVELS
    ensures var r := Switched(s, l, executed);
            && Shape(r) && Totals(r) == Totals(s) && r.executed == executed
            && (forall m :: 0 <= m < LEVELS && m != l ==> s.queues.ready[m] <= r.queues.ready[m])
            && s.queues.ready[l][1..] <= r.queues.ready[l]
  {
    var r, next := Switched(s, l, executed), s.queues.ready[l][0];
    assert next in s.queues.ready[l] && ListOk(s.queues.ready[l]);
    assert InPlace(s.queues, next, Home(s.pool, s.running, next));
    assert SlotOk(s.pool[s.running], s.running) && SlotOk(s.pool[next], next);
    forall k | 0 <= k < LEVELS
      ensures Total(r, k) == Total(s, k)
    {
    }
  }

  /** One switch: the task runs, or is still ready with a smaller measure. */
  lemma Progress(s: State, level: nat, p: nat, t: nat)
    requires Inv(s) && At(s, level, p, t)
    ensures Shape(s) && Shape(Dispatch(s))
    ensures Dispatch(s).running == t ||
            exists q :: At(Dispatch(s), level, q, t) && Measure(Dispatch(s), level, q) < Measure(s, level, p)
  {
    hide Inv, Weight, Rank, Totals, Switched;
    InvShape(s);
    var pick := Pick(s.queues.ready, s.executed);
    assert s.queues.ready[level] != [];
    PickFindsTask(s.queues.ready, s.executed);
    var l, r := pick.0, Dispatch(s);
    SwitchMoves(s, l, pick.1);
    var n, w := Totals(s), Weight(Totals(s), level);
    RankBound(n, r.executed, level);
    if l == level {
      MovesUp(s, r, level, p, t, pick.1);
    } else {
      assert At(r, level, p, t);
      if l < level && FirstLevel(s.queues.ready, s.executed, 0) == l {
        TotalAtLeast(s, l);
        RankDrops(n, s.executed, l, level);
        TimesMonotone(2 * p + (if Exhausted(r, level) then 1 else 0),
                      2 * p + (if Exhausted(s, level) then 1 else 0), w);
      } else {
        assert Exhausted(s, level) && !Exhausted(r, level);
        Below(2 * p, 2 * p + 1, w, Rank(n, r.executed, level), Rank(n, s.executed, level));
      }
      assert Measure(r, level, p) < Measure(s, level, p);
    }
  }

  lemma InvShape(s: State)
    requires Inv(s)
    ensures Shape(s)
  {
  }

  lemma TotalAtLeast(s: State, l: nat)
    requires Shape(s) && l < LEVELS
    ensures |s.queues.ready[l]| <= Totals(s)[l]
  {
  }

  lemma MovesUp(s: State, r: State, level: nat, p: nat, t: nat, executed: seq<nat>)
    requires Shape(s) && Shape(r) && At(s, level, p, t) && r == Switched(s, level, executed) && |executed| == LEVELS
    requires s.queues.ready[level][1..] <= r.queues.ready[level] && Totals(r) == Totals(s)
    ensures r.running == t || exists q :: At(r, level, q, t) && Measure(r, level, q) < Measure(s, level, p)
  {
    if p > 0 {
      assert r.queues.ready[level][p - 1] == s.queues.ready[level][1..][p - 1];
      var w := Weight(Totals(s), level);
      RankBound(Totals(s), r.executed, level);
      Below(2 * (p - 1) + (if Exhausted(r, level) then 1 else 0), 2 * p + (if Exhausted(s, level) then 1 else 0), w,
            Rank(Totals(s), r.executed, level), Rank(Totals(s), s.executed, level));
      assert At(r, level, p - 1, t) && Measure(r, level, p - 1) < Measure(s, level, p);
    }
  }

  /** The state after `m` switches. */
  ghost function After(s: State, m: nat): State
    requires Inv(s)
    decreases m
  {
    if m == 0 then s else InvShape(s); DispatchKeeps(s); After(Dispatch(s), m - 1)
  }

  lemma {:induction false} RunsWithinMeasure(s: State, level: nat, p: nat, t: nat)
    requires Inv(s) && At(s, level, p, t)
    ensures Shape(s) && exists m :: 1 <= m <= Measure(s, level, p) + 1 && After(s, m).running == t
    decreases Measure(s, level, p)
  {
    hide Inv, Measure, Switched, Pick;
    InvShape(s);
    Progress(s, level, p, t);
    DispatchKeeps(s);
    var r := Dispatch(s);
    if r.running == t {
      assert After(s, 1) == After(r, 0);
    } else {
      var q :| At(r, level, q, t) && Measure(r, level, q) < Measure(s, level, p);
      RunsWithinMeasure(r, level, q, t);
      var m :| 1 <= m <= Measure(r, level, q) + 1 && After(r, m).running == t;
      assert After(s, m + 1) == After(r, m);
    }
  }

  /** The task at position `p` of a level runs within 2 (p + 1) times the product of the sizes plus one of
      all higher levels switches. */
  lemma NoStarvation(s: State, level: nat, p: nat, t: nat)
    requires Inv(s) && At(s, level, p, t)
    ensures Shape(s)
    ensures exists m :: 1 <= m <= 2 * (p + 1) * Weight(Totals(s), level) && After(s, m).running == t
  {
    hide Inv, Measure, Weight, After;
    InvShape(s);
    RunsWithinMeasure(s, level, p, t);
    MeasureBound(s, level, p);
    var m :| 1 <= m <= Measure(s, level, p) + 1 && After(s, m).running == t;
    assert m <= 2 * (p + 1) * Weight(Totals(s), level);
  }
}
