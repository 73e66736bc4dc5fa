/**
 The tick accounting of `schedule` and `clock_handler` as functions, and what it gives a fixed set of
 runnable processes: everyone gets the processor within a bound, and exactly its priority per round.
 */
module Sched {

  /** `ready` is p_proc_ready; a process is runnable when its flags are 0. */
  datatype Clock = Clock(runnable: seq<bool>, ticks: seq<int>, priority: seq<int>, ready: nat)

  predicate Sized(c: Clock) {
    |c.runnable| == |c.ticks| == |c.priority| && c.ready < |c.runnable|
  }

  // ---------------------------------------------------------------- choosing

  /** The scan of `schedule` over the first n slots; -1 when it finds no runnable process with ticks left. */
  function Best(runnable: seq<bool>, ticks: seq<int>, n: nat): (r: int)
    requires |runnable| == |ticks| && n <= |ticks|
    ensures -1 <= r < n
  {
    if n == 0 then -1
    else
      var b := Best(runnable, ticks, n - 1);
      if runnable[n - 1] && ticks[n - 1] > (if b < 0 then 0 else ticks[b]) then n - 1 else b
  }

  /** r is the lowest-indexed runnable process among those with the most ticks, and has some. */
  ghost predicate IsPick(runnable: seq<bool>, ticks: seq<int>, n: nat, r: int)
    requires |runnable| == |ticks| && n <= |ticks|
  {
    && 0 <= r < n && runnable[r] && ticks[r] > 0
    && (forall i | 0 <= i < n && runnable[i] :: ticks[i] <= ticks[r])
    && (forall i | 0 <= i < r && runnable[i] :: ticks[i] < ticks[r])
  }

  lemma {:induction false} BestIsPick(runnable: seq<bool>, ticks: seq<int>, n: nat)
    requires |runnable| == |ticks| && n <= |ticks|
    ensures Best(runnable, ticks, n) >= 0 ==> IsPick(runnable, ticks, n, Best(runnable, ticks, n))
    ensures Best(runnable, ticks, n) < 0 <==> forall i | 0 <= i < n && runnable[i] :: ticks[i] <= 0
  {
    if n > 0 {
      BestIsPick(runnable, ticks, n - 1);
    }
  }

  /** `schedule` comes back exactly when this holds; otherwise its outer loop never ends. */
  ghost predicate CanSchedule(c: Clock)
    requires Sized(c)
  {
    exists i :: 0 <= i < |c.runnable| && c.runnable[i] && (c.ticks[i] > 0 || c.priority[i] > 0)
  }

  /** The clock after `schedule`: at most one refill, then the pick. */
  function Scheduled(c: Clock): Clock
    requires Sized(c) && CanSchedule(c)
  {
    var n := |c.ticks|;
    if Best(c.runnable, c.ticks, n) >= 0 then c.(ready := Best(c.runnable, c.ticks, n))
    else
      ScheduleEnds(c);
      c.(ticks := c.priority, ready := Best(c.runnable, c.priority, n))
  }

  lemma ScheduleEnds(c: Clock)
    requires Sized(c)
    ensures CanSchedule(c) <==> (Best(c.runnable, c.ticks, |c.ticks|) >= 0
            || Best(c.runnable, c.priority, |c.ticks|) >= 0)
  {
    BestIsPick(c.runnable, c.ticks, |c.ticks|);
    BestIsPick(c.runnable, c.priority, |c.ticks|);
    var b, b' := Best(c.runnable, c.ticks, |c.ticks|), Best(c.runnable, c.priority, |c.ticks|);
    assert b >= 0 ==> c.runnable[b];
    assert b' >= 0 ==> c.runnable[b'];
  }

  /** What `schedule` chooses, after the refill if all runnable ticks were used up. */
  lemma ScheduledPicks(c: Clock)
    requires Sized(c) && CanSchedule(c)
    ensures IsPick(c.runnable, Scheduled(c).ticks, |c.ticks|, Scheduled(c).ready)
    ensures Scheduled(c).ticks ==
            if exists i :: 0 <= i < |c.ticks| && c.runnable[i] && c.ticks[i] > 0 then c.ticks else c.priority
  {
    ScheduleEnds(c);
    BestIsPick(c.runnable, c.ticks, |c.ticks|);
    BestIsPick(c.runnable, c.priority, |c.ticks|);
  }

  // ---------------------------------------------------------------- one clock interrupt

  function Charge(c: Clock): Clock
    requires Sized(c)
  {
    if c.ticks[c.ready] != 0 then c.(ticks := c.ticks[c.ready := c.ticks[c.ready] - 1]) else c
  }

  /** `clock_handler` when it interrupts a process and no key is pending. */
  function Tick(c: Clock): Clock
    requires Sized(c) && CanSchedule(Charge(c))
  {
    if Charge(c).ticks[c.ready] > 0 then Charge(c) else Scheduled(Charge(c))
  }

  /** After a system call of `caller`: the clock changed only by the `schedule` of a caller that blocked. */
  ghost predicate Resumed(before: Clock, after: Clock, caller: nat) {
    && Sized(before) && Sized(after) && |after.ticks| == |before.ticks| && caller < |after.ticks|
    && var c := before.(runnable := after.runnable);
    if after.runnable[caller] then after == c else CanSchedule(c) && after == Scheduled(c)
  }

  lemma ResumedRuns(before: Clock, after: Clock)
    requires Sized(before) && Resumed(before, after, before.ready)
    ensures after.runnable[after.ready]
  {
    if !after.runnable[before.ready] {
      ScheduledPicks(before.(runnable := after.runnable));
    }
  }

  /** After a clock interrupt that found the clock at `charged` once the running process was charged. */
  ghost predicate Interrupted(charged: Clock, after: Clock, reentered: bool) {
    && Sized(charged) && Sized(after) && |after.ticks| == |charged.ticks|
    && var c := charged.(runnable := after.runnable);
    if reentered || c.ticks[c.ready] > 0 then after == c else CanSchedule(c) && after == Scheduled(c)
  }

  lemma InterruptedRuns(charged: Clock, after: Clock, reentered: bool)
    requires Interrupted(charged, after, reentered) && after.runnable[charged.ready]
    ensures after.runnable[after.ready]
  {
    if !reentered && charged.ticks[charged.ready] <= 0 {
      ScheduledPicks(charged.(runnable := after.runnable));
    }
  }

  /** An interrupt that changes nobody's runnability is a tick. */
  lemma InterruptIsTick(c: Clock, after: Clock)
    requires Sized(c) && Interrupted(Charge(c), after, false) && after.runnable == c.runnable && CanSchedule(Charge(c))
    ensures after == Tick(c)
  {
  }

  /** The state `schedule` leaves: the running process has ticks, nobody is in debt, priorities are positive. */
  ghost predicate Sound(c: Clock) {
    && Sized(c) && c.runnable[c.ready] && c.ticks[c.ready] > 0
    && forall i | 0 <= i < |c.runnable| && c.runnable[i] :: c.ticks[i] >= 0 && c.priority[i] > 0
  }

  function Total(runnable: seq<bool>, ticks: seq<int>): int
    requires |runnable| == |ticks|
  {
    if runnable == [] then 0 else (if runnable[0] then ticks[0] else 0) + Total(runnable[1..], ticks[1..])
  }

  lemma {:induction false} TotalUpdate(runnable: seq<bool>, ticks: seq<int>, i: nat, v: int)
    requires |runnable| == |ticks| && i < |ticks| && runnable[i]
    ensures Total(runnable, ticks[i := v]) == Total(runnable, ticks) - ticks[i] + v
  {
    if i == 0 {
      assert ticks[0 := v][1..] == ticks[1..];
    } else {
      assert ticks[i := v][1..] == ticks[1..][i - 1 := v];
      TotalUpdate(runnable[1..], ticks[1..], i - 1, v);
    }
  }

  lemma {:induction false} TotalBounds(runnable: seq<bool>, ticks: seq<int>)
    requires |runnable| == |ticks|
    requires forall i | 0 <= i < |runnable| && runnable[i] :: ticks[i] >= 0
    ensures Total(runnable, ticks) >= 0
    ensures forall i | 0 <= i < |runnable| && runnable[i] :: ticks[i] <= Total(runnable, ticks)
  {
    if runnable != [] {
      forall i | 0 <= i < |runnable[1..]| && runnable[1..][i] ensures ticks[1..][i] >= 0 {
        assert runnable[i + 1];
      }
      TotalBounds(runnable[1..], ticks[1..]);
      forall i | 0 <= i < |runnable| && runnable[i] ensures ticks[i] <= Total(runnable, ticks) {
        if i > 0 { assert runnable[1..][i - 1] && ticks[1..][i - 1] == ticks[i]; }
      }
    }
  }

  lemma {:induction false} TotalPositive(runnable: seq<bool>, ticks: seq<int>)
    requires |runnable| == |ticks| && Total(runnable, ticks) > 0
    ensures exists i :: 0 <= i < |runnable| && runnable[i] && ticks[i] > 0
  {
    if !(runnable[0] && ticks[0] > 0) {
      TotalPositive(runnable[1..], ticks[1..]);
      var i :| 0 <= i < |runnable[1..]| && runnable[1..][i] && ticks[1..][i] > 0;
      assert runnable[i + 1] && ticks[i + 1] > 0;
    }
  }

  /** One tick takes one unit from the running process; when the last unit of all goes, everyone is refilled. */
  ghost predicate Spent(c: Clock, c': Clock) {
    && Sound(c) && Sound(c') && c'.runnable == c.runnable && c'.priority == c.priority
    && var t := Total(c.runnable, c.ticks);
    && t >= 1
    && (t > 1 ==> c'.ticks == c.ticks[c.ready := c.ticks[c.ready] - 1] && Total(c.runnable, c'.ticks) == t - 1)
    && (t == 1 ==> c'.ticks == c.priority && c.ticks[c.ready] == 1
                   && forall i | 0 <= i < |c.ticks| && c.runnable[i] && i != c.ready :: c.ticks[i] == 0)
  }

  lemma OneTick(c: Clock)
    requires Sound(c)
    ensures CanSchedule(Charge(c)) && Spent(c, Tick(c))
  {
    var d := Charge(c);
    assert d.runnable[d.ready] && d.priority[d.ready] > 0;
    TotalUpdate(c.runnable, c.ticks, c.ready, c.ticks[c.ready] - 1);
    TotalBounds(d.runnable, d.ticks);
    assert Total(d.runnable, d.ticks) == Total(c.runnable, c.ticks) - 1;
    ScheduledPicks(d);
    if Total(c.runnable, c.ticks) > 1 {
      TotalPositive(d.runnable, d.ticks);
    } else {
      assert forall i | 0 <= i < |c.ticks| && c.runnable[i] && i != c.ready :: d.ticks[i] == c.ticks[i];
    }
  }

  // ---------------------------------------------------------------- many clock interrupts

  /** Successive clock interrupts during which the set of runnable processes does not change. */
  ghost predicate IsRun(run: seq<Clock>) {
    && |run| > 0 && Sound(run[0])
    && forall i | 0 <= i < |run| - 1 :: TicksAt(run, i)
  }

  ghost predicate TicksAt(run: seq<Clock>, i: nat)
    requires i < |run| - 1
  {
    Sized(run[i]) && CanSchedule(Charge(run[i])) && run[i + 1] == Tick(run[i])
  }

  lemma ExtendRun(run: seq<Clock>, c: Clock)
    requires IsRun(run) && Sized(run[|run| - 1]) && CanSchedule(Charge(run[|run| - 1])) && c == Tick(run[|run| - 1])
    ensures IsRun(run + [c])
  {
    forall i | 0 <= i < |run| ensures TicksAt(run + [c], i) {
      if i < |run| - 1 { assert TicksAt(run, i); }
    }
  }

  /** The same run, seen only through what each tick spends. */
  ghost predicate SpendingRun(run: seq<Clock>) {
    |run| > 0 && forall i | 0 <= i < |run| - 1 :: SpendsAt(run, i)
  }

  ghost predicate SpendsAt(run: seq<Clock>, i: nat)
    requires i < |run| - 1
  {
    Spent(run[i], run[i + 1])
  }

  lemma {:induction false} RunSpends(run: seq<Clock>)
    requires IsRun(run)
    ensures SpendingRun(run)
    ensures forall i | 0 <= i < |run| ::
             Sound(run[i]) && run[i].runnable == run[0].runnable && run[i].priority == run[0].priority
  {
    var k := 0;
    while k < |run| - 1
      invariant 0 <= k < |run| && Sound(run[k])
      invariant forall i | 0 <= i < k :: SpendsAt(run, i)
      invariant forall i | 0 <= i <= k ::
                 Sound(run[i]) && run[i].runnable == run[0].runnable && run[i].priority == run[0].priority
    {
      assert TicksAt(run, k);
      OneTick(run[k]);
      k := k + 1;
    }
  }

  /** How many of the ticks a..b of the run are charged to process r. */
  ghost function Ran(run: seq<Clock>, a: nat, b: nat, r: nat): nat
    requires a <= b < |run|
    decreases b
  {
    if a == b then 0 else Ran(run, a, b - 1, r) + (if run[b - 1].ready == r then 1 else 0)
  }

  /** Until the ticks run out, ticks charged and ticks left add up. */
  lemma {:induction false} WithinRound(run: seq<Clock>, a: nat, k: nat, r: nat)
    requires SpendingRun(run) && a + k < |run| && r < |run[a].ticks|
    requires Sound(run[a]) && run[a].runnable[r] && k < Total(run[a].runnable, run[a].ticks)
    ensures Sound(run[a + k]) && run[a + k].runnable == run[a].runnable && run[a + k].priority == run[a].priority
    ensures Total(run[a].runnable, run[a + k].ticks) == Total(run[a].runnable, run[a].ticks) - k
    ensures Ran(run, a, a + k, r) + run[a + k].ticks[r] == run[a].ticks[r]
  {
    if k > 0 {
      WithinRound(run, a, k - 1, r);
      assert SpendsAt(run, a + (k - 1));
    }
  }

  /** When the ticks run out each process has run exactly the ticks it had, and all are refilled. */
  lemma RoundEnds(run: seq<Clock>, a: nat, r: nat)
    requires SpendingRun(run) && a < |run| && Sound(run[a]) && r < |run[a].ticks| && run[a].runnable[r]
    requires a + Total(run[a].runnable, run[a].ticks) < |run|
    ensures var s := Total(run[a].runnable, run[a].ticks);
            && s > 0 && Ran(run, a, a + s, r) == run[a].ticks[r]
            && Sound(run[a + s]) && run[a + s].ticks == run[a].priority
            && run[a + s].runnable == run[a].runnable && run[a + s].priority == run[a].priority
  {
    var s := Total(run[a].runnable, run[a].ticks);
    TotalBounds(run[a].runnable, run[a].ticks);
    WithinRound(run, a, s - 1, r);
    assert SpendsAt(run, a + (s - 1));
  }

  /** The ticks of one full round: the sum of the runnable processes' priorities. */
  function RoundLength(c: Clock): nat
    requires Sound(c)
  {
    TotalBounds(c.runnable, c.priority);
    Total(c.runnable, c.priority)
  }

  /** Where the m-th full round starts, the first one after the ticks left now. */
  function RoundStart(c: Clock, m: nat): nat
    requires Sound(c)
  {
    if m == 0 then TotalBounds(c.runnable, c.ticks); Total(c.runnable, c.ticks)
    else RoundStart(c, m - 1) + RoundLength(c)
  }

  lemma {:induction false} RoundStarts(run: seq<Clock>, m: nat, r: nat)
    requires SpendingRun(run) && Sound(run[0]) && r < |run[0].ticks| && run[0].runnable[r]
    requires RoundStart(run[0], m) < |run|
    ensures var c := run[RoundStart(run[0], m)];
            Sound(c) && c.ticks == c.priority == run[0].priority && c.runnable == run[0].runnable
  {
    if m == 0 {
      RoundEnds(run, 0, r);
    } else {
      RoundStarts(run, m - 1, r);
      RoundEnds(run, RoundStart(run[0], m - 1), r);
    }
  }

  /** Proportional share: at each round start everyone is refilled, and in each round every runnable
      process runs exactly its priority in ticks. */
  lemma ProportionalShare(run: seq<Clock>, m: nat, r: nat)
    requires IsRun(run) && r < |run[0].ticks| && run[0].runnable[r]
    requires RoundStart(run[0], m + 1) < |run|
    ensures run[RoundStart(run[0], m)].ticks == run[0].priority
    ensures Ran(run, RoundStart(run[0], m), RoundStart(run[0], m + 1), r) == run[0].priority[r]
  {
    RunSpends(run);
    RoundStarts(run, m, r);
    RoundEnds(run, RoundStart(run[0], m), r);
  }

  // ---------------------------------------------------------------- who runs next

  /** A process that has ticks left after a clock interrupt keeps the processor; otherwise the pick of those with ticks
      gets it. */
  lemma KeepsProcessor(run: seq<Clock>, i: nat)
    requires IsRun(run) && i + 1 < |run|
    ensures Sized(run[i]) && Sized(run[i + 1]) && run[i].ticks[run[i].ready] > 0
    ensures run[i].ticks[run[i].ready] > 1 ==> run[i + 1].ready == run[i].ready
    ensures run[i].ticks[run[i].ready] == 1 ==>
              IsPick(run[i + 1].runnable, run[i + 1].ticks, |run[i + 1].ticks|, run[i + 1].ready)
  {
    RunSpends(run);
    assert TicksAt(run, i);
    OneTick(run[i]);
    ScheduledPicks(Charge(run[i]));
  }

  /** It runs its ticks in one stretch ... */
  lemma {:induction false} Stretch(run: seq<Clock>, a: nat, j: nat)
    requires IsRun(run) && a + j < |run|
    ensures Sized(run[a]) && Sized(run[a + j]) && |run[a + j].ticks| == |run[a].ticks|
    ensures j < run[a].ticks[run[a].ready] ==>
              run[a + j].ready == run[a].ready
              && run[a + j].ticks[run[a].ready] == run[a].ticks[run[a].ready] - j
  {
    RunSpends(run);
    if j > 0 {
      Stretch(run, a, j - 1);
      KeepsProcessor(run, a + j - 1);
      assert SpendsAt(run, a + (j - 1));
      TicksLeft(run, a + j - 1);
    }
  }

  lemma TicksLeft(run: seq<Clock>, i: nat)
    requires IsRun(run) && i + 1 < |run|
    ensures Sized(run[i]) && Sized(run[i + 1]) && |run[i + 1].ticks| == |run[i].ticks|
    ensures run[i].ticks[run[i].ready] > 1 ==>
              run[i + 1].ticks == run[i].ticks[run[i].ready := run[i].ticks[run[i].ready] - 1]
  {
    RunSpends(run);
    assert TicksAt(run, i);
    TotalBounds(run[i].runnable, run[i].ticks);
    OneTick(run[i]);
  }

  /** ... and then the pick of the others follows. */
  lemma StretchEnds(run: seq<Clock>, a: nat)
    requires IsRun(run) && a < |run| && Sized(run[a]) && a + run[a].ticks[run[a].ready] < |run|
    ensures run[a].ticks[run[a].ready] > 0
    ensures var c := run[a + run[a].ticks[run[a].ready]];
            |c.runnable| == |c.ticks| && IsPick(c.runnable, c.ticks, |c.ticks|, c.ready)
  {
    RunSpends(run);
    var t := run[a].ticks[run[a].ready];
    Stretch(run, a, t - 1);
    KeepsProcessor(run, a + t - 1);
  }

  /** Before the last tick of a round the running process spends one and nobody gets any. */
  lemma SpendsOne(run: seq<Clock>, i: nat)
    requires SpendingRun(run) && i + 1 < |run| && Sized(run[i]) && Total(run[i].runnable, run[i].ticks) > 1
    ensures Sized(run[i + 1]) && run[i + 1].ticks == run[i].ticks[run[i].ready := run[i].ticks[run[i].ready] - 1]
  {
    assert SpendsAt(run, i);
  }

  /** Behind its stretch the process has no ticks for the rest of the round. */
  lemma UsedUp(run: seq<Clock>, a: nat)
    requires IsRun(run) && SpendingRun(run) && a < |run| && Sound(run[a])
    requires run[a].ticks[run[a].ready] < Total(run[a].runnable, run[a].ticks)
    requires a + run[a].ticks[run[a].ready] < |run|
    ensures var t := run[a].ticks[run[a].ready];
            Sized(run[a + t]) && |run[a + t].ticks| == |run[a].ticks| && run[a + t].ticks[run[a].ready] == 0
  {
    var p := run[a].ready;
    var t := run[a].ticks[p];
    Stretch(run, a, t - 1);
    WithinRound(run, a, t - 1, p);
    SpendsOne(run, a + t - 1);
  }

  lemma NotAgain(run: seq<Clock>, a: nat, e: nat, c: nat, p: nat)
    requires SpendingRun(run) && a <= e <= c < |run| && Sound(run[a]) && p < |run[a].ticks| && run[a].runnable[p]
    requires c - a < Total(run[a].runnable, run[a].ticks) && |run[e].ticks| == |run[a].ticks| && run[e].ticks[p] == 0
    ensures run[c].ready != p
  {
    WithinRound(run, a, e - a, p);
    WithinRound(run, e, c - e, p);
  }

  /** Within a round no process that has lost the processor gets it again. */
  lemma Unbroken(run: seq<Clock>, a: nat, b: nat, c: nat)
    requires IsRun(run) && a <= b <= c < |run| && Sized(run[a])
    requires c - a < Total(run[a].runnable, run[a].ticks) && run[c].ready == run[a].ready
    ensures run[b].ready == run[a].ready
  {
    var p := run[a].ready;
    if b - a < run[a].ticks[p] {
      Stretch(run, a, b - a);
    } else {
      RunSpends(run);
      UsedUp(run, a);
      NotAgain(run, a, a + run[a].ticks[p], c, p);
    }
  }

  lemma {:induction false} RanWitness(run: seq<Clock>, a: nat, b: nat, r: nat)
    requires a <= b < |run| && Ran(run, a, b, r) > 0
    ensures exists k: nat :: a <= k < b && run[k].ready == r
    decreases b
  {
    if run[b - 1].ready != r {
      RanWitness(run, a, b - 1, r);
    }
  }

  /** Bounded waiting: from any moment on, every runnable process gets the processor in fewer than
      (ticks left in all) + (sum of priorities) ticks. */
  lemma BoundedWaiting(run: seq<Clock>, r: nat)
    requires IsRun(run) && r < |run[0].ticks| && run[0].runnable[r]
    requires |run| > Total(run[0].runnable, run[0].ticks) + RoundLength(run[0])
    ensures exists k: nat :: k < Total(run[0].runnable, run[0].ticks) + RoundLength(run[0]) && run[k].ready == r
  {
    ProportionalShare(run, 0, r);
    RanWitness(run, RoundStart(run[0], 0), RoundStart(run[0], 1), r);
  }
}
