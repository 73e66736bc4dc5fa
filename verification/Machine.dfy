/**
 The kernel seen from outside: what system calls and interrupts do to message passing and scheduling together, over any
 row of events from start-up on.
 */
module Machine {
  import opened Ipc
  import opened IpcRuns
  import Sched

  const TASK_TTY := 0
  const TASK_HD := 2
  const MAX_TICKS := 0x7fffabcd

  datatype Function = SEND | RECEIVE

  /** What drives the kernel: the running process calls, the clock ticks, the disk is done, the keyboard handler or the
      terminal task sets key_pressed. */
  datatype Event =
    | SysCall(f: Function, srcDest: int, m: Message)
    | ClockInterrupt(reentered: bool)
    | DiskInterrupt
    | KeyPressed(down: bool)

  datatype Moment = Moment(core: State, clock: Sched.Clock, ticks: int, key: bool)

  /** Who is runnable. */
  function Runs(phase: seq<Phase>): seq<bool> {
    seq(|phase|, p requires 0 <= p < |phase| => phase[p] == Running)
  }

  // ---------------------------------------------------------------- one event

  /** What sys_sendrec and its two routines assert about their arguments; a SEND to ANY or INTERRUPT passes these
      assertions and indexes the process table out of its range. */
  predicate ValidTarget(f: Function, srcDest: int, size: nat, caller: nat) {
    match f
    case SEND => 0 <= srcDest < size && srcDest != caller
    case RECEIVE => srcDest == ANY || srcDest == INTERRUPT || (0 <= srcDest < size && srcDest != caller)
  }

  function CallOf(f: Function, srcDest: int, m: Message, caller: nat): (c: Call)
    requires f == SEND ==> srcDest >= 0
  {
    if f == SEND then Send(caller, srcDest, m) else Receive(caller, srcDest, m)
  }

  /** The event ends the system: a call with an argument that is no process, a send that closes a circle, or a
      receive that would block while an interrupt is pending.  `idle` is a process that makes no calls. */
  ghost predicate Ends(s: Moment, e: Event, idle: nat) {
    && e.SysCall? && s.clock.ready != idle
    && (!ValidTarget(e.f, e.srcDest, s.core.Size(), s.clock.ready) || Fails(s, e.f, e.srcDest))
  }

  /** The panic of msg_send and the last assertion of msg_receive. */
  ghost predicate Fails(s: Moment, f: Function, srcDest: int) {
    match f
    case SEND => srcDest >= 0 && WaitsFor(s.core.phase, srcDest, s.clock.ready)
    case RECEIVE =>
      WellFormed(s.core) && s.clock.ready < s.core.Size() && BlocksOnPending(s.core, s.clock.ready, srcDest)
  }

  /** The step of message passing that an event makes, if it makes one. */
  function CallsOf(s: Moment, e: Event, idle: nat): seq<Call> {
    match e
    case SysCall(f, srcDest, m) =>
      if s.clock.ready != idle && ValidTarget(f, srcDest, s.core.Size(), s.clock.ready)
      then [CallOf(f, srcDest, m, s.clock.ready)] else []
    case ClockInterrupt(_) => if s.key then [Inform(TASK_TTY)] else []
    case DiskInterrupt => [Inform(TASK_HD)]
    case KeyPressed(_) => []
  }

  /** The core after the calls, one or none. */
  ghost predicate CoreFollows(s: State, calls: seq<Call>, s': State) {
    if calls == [] then s' == s else Legal(s, calls[0]) && s' == CoreStep(s, calls[0])
  }

  ghost predicate ClockFollows(s: Moment, e: Event, s': Moment, idle: nat) {
    match e
    case SysCall(_, _, _) =>
      if s.clock.ready != idle then Sched.Resumed(s.clock, s'.clock, s.clock.ready) else s'.clock == s.clock
    case ClockInterrupt(reentered) => Sched.Sized(s.clock)
        && Sched.Interrupted(Sched.Charge(s.clock), s'.clock, reentered)
    case DiskInterrupt => s'.clock == s.clock.(runnable := s'.clock.runnable)
    case KeyPressed(_) => s'.clock == s.clock
  }

  ghost predicate Happened(s: Moment, e: Event, s': Moment, idle: nat) {
    && !Ends(s, e, idle) && CoreFollows(s.core, CallsOf(s, e, idle), s'.core)
    && ClockFollows(s, e, s', idle) && s'.clock.runnable == Runs(s'.core.phase)
    && s'.key == (if e.KeyPressed? then e.down else s.key)
    && s'.ticks == (if !e.ClockInterrupt? then s.ticks else if s.ticks + 1 >= MAX_TICKS then 0 else s.ticks + 1)
  }

  /** What clock_handler does is what a clock interrupt is. */
  lemma ClockHappened(s: Moment, s': Moment, reentered: bool, idle: nat)
    requires WellFormed(s.core) && TASK_TTY < s.core.Size()
    requires s'.core == if s.key then InformStep(s.core, TASK_TTY) else s.core
    requires Sched.Sized(s.clock) && Sched.Interrupted(Sched.Charge(s.clock), s'.clock, reentered)
    requires s'.clock.runnable == Runs(s'.core.phase) && s'.key == s.key
    requires s'.ticks == if s.ticks + 1 >= MAX_TICKS then 0 else s.ticks + 1
    ensures Happened(s, ClockInterrupt(reentered), s', idle)
  {
  }

  /** What a call that sys_sendrec accepts does is what a system call is. */
  lemma CallHappened(s: Moment, s': Moment, f: Function, srcDest: int, m: Message, idle: nat)
    requires s.clock.ready != idle && ValidTarget(f, srcDest, s.core.Size(), s.clock.ready)
    requires Legal(s.core, CallOf(f, srcDest, m, s.clock.ready))
    requires s'.core == CoreStep(s.core, CallOf(f, srcDest, m, s.clock.ready))
    requires Sched.Resumed(s.clock, s'.clock, s.clock.ready) && s'.clock.runnable == Runs(s'.core.phase)
    requires s'.key == s.key && s'.ticks == s.ticks
    ensures Happened(s, SysCall(f, srcDest, m), s', idle)
  {
  }

  /** It accepts the calls that do not end the system. */
  lemma LegalOrEnds(s: Moment, f: Function, srcDest: int, m: Message, idle: nat)
    requires s.clock.ready != idle && ValidTarget(f, srcDest, s.core.Size(), s.clock.ready)
    requires WellFormed(s.core) && s.clock.ready < s.core.Size() && s.core.phase[s.clock.ready] == Running
    ensures Legal(s.core, CallOf(f, srcDest, m, s.clock.ready)) <==> !Ends(s, SysCall(f, srcDest, m), idle)
  {
  }

  // ---------------------------------------------------------------- rows of events

  ghost predicate HappenedAt(moments: seq<Moment>, events: seq<Event>, idle: nat, i: nat) {
    i < |events| && i + 1 < |moments| && Happened(moments[i], events[i], moments[i + 1], idle)
  }

  /** The moments before, between and after the first n events. */
  ghost predicate Story(moments: seq<Moment>, events: seq<Event>, idle: nat, n: nat) {
    n <= |events| && |moments| == n + 1 && forall i | 0 <= i < n :: HappenedAt(moments, events, idle, i)
  }

  /** The calls that the first n events made, in order. */
  ghost function CallsMade(moments: seq<Moment>, events: seq<Event>, idle: nat, n: nat): seq<Call>
    requires n <= |events| && n <= |moments|
  {
    if n == 0 then [] else CallsMade(moments, events, idle, n - 1) + CallsOf(moments[n - 1], events[n - 1], idle)
  }

  lemma ExtendStory(moments: seq<Moment>, events: seq<Event>, idle: nat, n: nat, s: Moment)
    requires Story(moments, events, idle, n) && n < |events| && Happened(moments[n], events[n], s, idle)
    ensures Story(moments + [s], events, idle, n + 1)
  {
    var ms := moments + [s];
    forall i | 0 <= i < n + 1 ensures HappenedAt(ms, events, idle, i) {
      if i < n { assert HappenedAt(moments, events, idle, i); }
    }
  }

  /** A row of events is a run of the message-passing steps, made of exactly the calls of the events. */
  lemma {:induction false} StoryIsRun(moments: seq<Moment>, events: seq<Event>, idle: nat, n: nat)
      returns (cores: seq<State>)
    requires n <= |events| && n < |moments| && forall i | 0 <= i < n :: HappenedAt(moments, events, idle, i)
    ensures CoreRun(cores, CallsMade(moments, events, idle, n)) && |cores| > 0
    ensures cores[0] == moments[0].core && cores[|cores| - 1] == moments[n].core
  {
    if n == 0 {
      cores := [moments[0].core];
    } else {
      cores := StoryIsRun(moments, events, idle, n - 1);
      var made, calls := CallsMade(moments, events, idle, n - 1), CallsOf(moments[n - 1], events[n - 1], idle);
      assert HappenedAt(moments, events, idle, n - 1);
      if calls == [] {
        assert made + calls == made;
      } else {
        assert calls == [calls[0]];
        ExtendCoreRun(cores, made, calls[0], moments[n].core);
        cores := cores + [moments[n].core];
      }
    }
  }

  // ---------------------------------------------------------------- who runs after an event

  /** The running process keeps the processor over every event but two: a call of its own that blocks it, and a clock
      interrupt, not re-entered, that leaves it without ticks; then the pick of those with ticks gets it. */
  lemma WhoRuns(s: Moment, e: Event, s': Moment, idle: nat)
    requires Happened(s, e, s', idle) && Sched.Sized(s.clock) && s.core.Size() == |s.clock.ticks|
    ensures Sched.Sized(s'.clock) && |s'.clock.ticks| == |s.clock.ticks| == |s'.core.phase|
    ensures var p, c, c' := s.clock.ready, s.clock, s'.clock;
            var blocks := e.SysCall? && p != idle && s'.core.phase[p] != Running;
            var spent := e == ClockInterrupt(false) && c.ticks[p] <= 1;
            if blocks || spent then Sched.IsPick(c'.runnable, c'.ticks, |c'.ticks|, c'.ready) else c'.ready == p
    ensures var p, c, c' := s.clock.ready, s.clock, s'.clock;
            c'.ready == p && !(e == ClockInterrupt(false) && c.ticks[p] <= 1) ==>
              c'.ticks == if e.ClockInterrupt? && c.ticks[p] != 0 then c.ticks[p := c.ticks[p] - 1] else c.ticks
  {
    var p := s.clock.ready;
    SizesKept(s, e, s', idle);
    if e.SysCall? && p != idle {
      var c := s.clock.(runnable := s'.clock.runnable);
      if !s'.clock.runnable[p] { Sched.ScheduledPicks(c); }
    } else if e.ClockInterrupt? {
      var c := Sched.Charge(s.clock).(runnable := s'.clock.runnable);
      if !e.reentered && c.ticks[p] <= 0 { Sched.ScheduledPicks(c); }
    }
  }

  /** The tick count goes round, only the clock moves it, and only the keyboard or the terminal task the key flag. */
  lemma CountsTicks(s: Moment, e: Event, s': Moment, idle: nat)
    requires Happened(s, e, s', idle) && 0 <= s.ticks < 0x7fffabcd
    ensures s'.ticks == if e.ClockInterrupt? then (s.ticks + 1) % 0x7fffabcd else s.ticks
    ensures s'.key == match e case KeyPressed(down) => down case _ => s.key
  {
  }

  lemma SizesKept(s: Moment, e: Event, s': Moment, idle: nat)
    requires Happened(s, e, s', idle) && Sched.Sized(s.clock) && s.core.Size() == |s.clock.ticks|
    ensures |s'.core.phase| == |s.core.phase| == |s'.clock.runnable|
  {
  }

  lemma StoryWhoRuns(moments: seq<Moment>, events: seq<Event>, idle: nat, n: nat, i: nat)
    requires Story(moments, events, idle, n) && i < n && Funded(moments[0])
    ensures Sched.Sized(moments[i].clock) && Sched.Sized(moments[i + 1].clock)
    ensures |moments[i + 1].clock.ticks| == |moments[i].clock.ticks| == |moments[i + 1].core.phase|
    ensures var p, c, c' := moments[i].clock.ready, moments[i].clock, moments[i + 1].clock;
            var blocks := events[i].SysCall? && p != idle && moments[i + 1].core.phase[p] != Running;
            var spent := events[i] == ClockInterrupt(false) && c.ticks[p] <= 1;
            if blocks || spent then Sched.IsPick(c'.runnable, c'.ticks, |c'.ticks|, c'.ready) else c'.ready == p
  {
    StoryFunded(moments, events, idle, n, i);
    assert HappenedAt(moments, events, idle, i);
    WhoRuns(moments[i], events[i], moments[i + 1], idle);
  }

  /** What a disk or clock interrupt does to message passing: it wakes its task, the disk's or, with a key pressed, the
      terminal's, from a receive that it fits, or is pending for it; and nothing else. */
  lemma InterruptDoes(s: Moment, e: Event, s': Moment, idle: nat)
    requires Happened(s, e, s', idle) && (e.DiskInterrupt? || e.ClockInterrupt?) && 2 < s.core.Size()
    ensures WellFormed(s.core) || (e.ClockInterrupt? && !s.key)
    ensures var task := if e.DiskInterrupt? then 2 else 0;
            if e.ClockInterrupt? && !s.key then s'.core == s.core
            else if s.core.phase[task] == Receiving(ANY) || s.core.phase[task] == Receiving(INTERRUPT) then
              s'.core.phase == s.core.phase[task := Running] && s'.core.pending == s.core.pending[task := false]
            else s'.core == s.core.(pending := s.core.pending[task := true])
  {
  }

  /** When an event ends the system: a call of another process than `idle` to or from no other process, a send to one
      that already waits for the caller, or a receive from one that is not sending while an interrupt is pending. */
  lemma EndsExactly(s: Moment, e: Event, idle: nat)
    requires WellFormed(s.core) && s.clock.ready < s.core.Size()
    ensures Ends(s, e, idle) <==>
            e.SysCall? && s.clock.ready != idle &&
            var p, d := s.clock.ready, e.srcDest;
            if 0 <= d < s.core.Size() && d != p then
              if e.f == SEND then WaitsFor(s.core.phase, d, p)
              else d != 47 && s.core.pending[p] && s.core.phase[d] != Sending(p)
            else !(e.f == RECEIVE && (d == 47 || d == -10))
  {
  }

  /** What a SEND does to message passing: the message is handed over, stamped, or the caller waits. */
  lemma SendDoes(s: Moment, e: Event, s': Moment, idle: nat)
    requires Happened(s, e, s', idle) && e.SysCall? && e.f == SEND && s.clock.ready != idle
    ensures var p, d, c, c' := s.clock.ready, e.srcDest, s.core, s'.core;
            && WellFormed(c) && WellFormed(c') && p < c.Size() && 0 <= d < c.Size() == c'.Size()
            && if c.phase[d] == Receiving(47) || c.phase[d] == Receiving(p) then
                 c'.phase == c.phase[d := Running] && c'.queue == c.queue && c'.buf[d] == e.m.(source := p)
               else
                 c'.phase == c.phase[p := Sending(d)] && c'.queue == c.queue[d := c.queue[d] + [p]]
  {
  }

  /** What a RECEIVE does to message passing: the caller takes an interrupt, or the message of a sender that fits, which
      goes on, or waits. */
  lemma ReceiveDoes(s: Moment, e: Event, s': Moment, idle: nat, q: nat)
    requires Happened(s, e, s', idle) && e.SysCall? && e.f == RECEIVE && s.clock.ready != idle && Inv(s.core)
    ensures var p, d, c, c' := s.clock.ready, e.srcDest, s.core, s'.core;
            && WellFormed(c') && p < c.Size() == c'.Size()
            && if c.pending[p] && (d == 47 || d == -10) then
                 c'.phase == c.phase && c'.queue == c.queue && c'.buf[p] == Message(-10, 1, ZERO_BODY)
               else if exists f :: 0 <= f < c.Size() && c.phase[f] == Sending(p) && (d == 47 || d == f) then
                 q < c.Size() && c.phase[q] == Sending(p) && c'.phase[q] == Running ==>
                   (d == 47 || d == q) && c'.phase == c.phase[q := Running] && c'.buf[p] == c.buf[q]
               else c'.phase == c.phase[p := Receiving(d)]
  {
    var c, p, d := s.core, s.clock.ready, e.srcDest;
    CallKeeps(c, Receive(p, d, e.m));
    ChosenExists(c, p, d);
    if IntReady(c, p, d) {
    } else if Chosen(c, p, d) >= 0 {
      var f := Chosen(c, p, d);
      ChosenIsSender(c, p, d);
      assert f != p && s'.core.phase == c.phase[f := Running] && s'.core.buf[p] == c.buf[f];
      assert d == 47 || d == f;
    } else {
      assert s'.core.phase == c.phase[p := Receiving(d)];
    }
  }

  // ---------------------------------------------------------------- ticks from start-up on

  /** The running process is runnable, and nobody who is not a free slot is in debt or without priority. */
  ghost predicate Funded(s: Moment) {
    && Inv(s.core) && Sched.Sized(s.clock) && s.core.Size() == |s.clock.ticks| && TASK_HD < s.core.Size()
    && s.clock.runnable == Runs(s.core.phase) && s.clock.runnable[s.clock.ready]
    && forall p | 0 <= p < s.core.Size() && s.core.phase[p] != Unused ::
        s.clock.ticks[p] >= 0 && s.clock.priority[p] > 0
  }

  /** The calls keep the invariant; free slots stay free and no others become free. */
  lemma CallKeeps(s: State, c: Call)
    requires Inv(s) && Legal(s, c)
    ensures Inv(CoreStep(s, c)) && CoreStep(s, c).Size() == s.Size()
    ensures forall p | 0 <= p < s.Size() :: CoreStep(s, c).phase[p] == Unused <==> s.phase[p] == Unused
  {
    match c
    case Send(src, dest, m) => SendKeepsInv(s, src, dest, m);
    case Receive(p, from, m) =>
      ReceiveKeepsInv(s, p, from, m);
      ChosenIsSender(s, p, from);
    case Inform(task) => InformKeepsInv(s, task);
  }

  /** An interrupt leaves the running process running. */
  lemma InformKeepsRunning(s: State, task: nat, p: nat)
    requires WellFormed(s) && task < s.Size() && p < s.Size() && s.phase[p] == Running
    ensures InformStep(s, task).phase[p] == Running
  {
  }

  lemma CoreAfter(s: Moment, e: Event, s': Moment, idle: nat)
    requires Funded(s) && Happened(s, e, s', idle)
    ensures Inv(s'.core) && s'.core.Size() == s.core.Size()
    ensures forall p | 0 <= p < s.core.Size() :: s'.core.phase[p] == Unused <==> s.core.phase[p] == Unused
    ensures !e.SysCall? || s.clock.ready == idle ==> s'.clock.runnable[s.clock.ready]
  {
    var calls := CallsOf(s, e, idle);
    if calls != [] { CallKeeps(s.core, calls[0]); }
    if e.ClockInterrupt? && s.key { InformKeepsRunning(s.core, TASK_TTY, s.clock.ready); }
    if e.DiskInterrupt? { InformKeepsRunning(s.core, TASK_HD, s.clock.ready); }
  }

  /** What schedule leaves: ticks as they were or refilled, and somebody running who has ticks. */
  lemma AfterSchedule(c: Sched.Clock)
    requires Sched.Sized(c) && Sched.CanSchedule(c)
    ensures var d := Sched.Scheduled(c);
            && Sched.Sized(d) && (d.ticks == c.ticks || d.ticks == c.priority) && d.priority == c.priority
            && d.runnable == c.runnable && d.runnable[d.ready] && d.ticks[d.ready] > 0
  {
    Sched.ScheduledPicks(c);
  }

  /** The clock after any event. */
  lemma ClockAfter(s: Moment, e: Event, s': Moment, idle: nat)
    requires Funded(s) && Happened(s, e, s', idle)
    ensures Sched.Sized(s'.clock) && |s'.clock.ticks| == |s.clock.ticks| && s'.clock.priority == s.clock.priority
    ensures s'.clock.runnable[s'.clock.ready]
    ensures forall p | 0 <= p < |s.clock.ticks| ::
              s'.clock.ticks[p] == s.clock.ticks[p] || s'.clock.ticks[p] == s.clock.priority[p]
              || (s'.clock.ticks[p] == s.clock.ticks[p] - 1 && s.clock.ticks[p] != 0)
    ensures e == ClockInterrupt(false) || (s.clock.ticks[s.clock.ready] > 0 && !e.ClockInterrupt?) ==>
              s'.clock.ticks[s'.clock.ready] > 0
  {
    CoreAfter(s, e, s', idle);
    if e.SysCall? && s.clock.ready != idle {
      var c := s.clock.(runnable := s'.clock.runnable);
      if !s'.clock.runnable[s.clock.ready] { AfterSchedule(c); }
    } else if e.ClockInterrupt? {
      var c := Sched.Charge(s.clock).(runnable := s'.clock.runnable);
      if !e.reentered && c.ticks[c.ready] <= 0 { AfterSchedule(c); }
    }
  }

  /** Every event keeps the system funded. */
  lemma StepFunded(s: Moment, e: Event, s': Moment, idle: nat)
    requires Funded(s) && Happened(s, e, s', idle)
    ensures Funded(s')
  {
    CoreAfter(s, e, s', idle);
    ClockAfter(s, e, s', idle);
  }

  /** A clock interrupt that is not re-entered makes the clock sound, and every event but a re-entered clock
      interrupt keeps it sound. */
  lemma StepSound(s: Moment, e: Event, s': Moment, idle: nat)
    requires Funded(s) && Happened(s, e, s', idle)
    ensures e == ClockInterrupt(false) || (Sched.Sound(s.clock) && !e.ClockInterrupt?) ==> Sched.Sound(s'.clock)
  {
    StepFunded(s, e, s', idle);
    ClockAfter(s, e, s', idle);
  }

  lemma {:induction false} StoryFunded(moments: seq<Moment>, events: seq<Event>, idle: nat, n: nat, i: nat)
    requires Story(moments, events, idle, n) && Funded(moments[0]) && i <= n
    ensures Funded(moments[i])
  {
    if i > 0 {
      StoryFunded(moments, events, idle, n, i - 1);
      assert HappenedAt(moments, events, idle, i - 1);
      StepFunded(moments[i - 1], events[i - 1], moments[i], idle);
    }
  }

  /** From the first clock interrupt on, as long as none is re-entered, the clock is sound. */
  lemma {:induction false} SoundFrom(moments: seq<Moment>, events: seq<Event>, idle: nat, n: nat, a: nat, i: nat)
    requires Story(moments, events, idle, n) && Funded(moments[0]) && a < i <= n && events[a] == ClockInterrupt(false)
    requires forall j | a < j < i :: events[j] != ClockInterrupt(true)
    ensures Sched.Sound(moments[i].clock)
  {
    StoryFunded(moments, events, idle, n, i - 1);
    assert HappenedAt(moments, events, idle, i - 1);
    if a < i - 1 { SoundFrom(moments, events, idle, n, a, i - 1); }
    StepSound(moments[i - 1], events[i - 1], moments[i], idle);
  }

  // ---------------------------------------------------------------- bounded waiting from start-up on

  /** From a to b only the clock interrupts, and who is runnable stays the same. */
  ghost predicate Quiet(moments: seq<Moment>, events: seq<Event>, a: nat, b: nat) {
    && a <= b < |moments| && b <= |events| && (forall i | a <= i < b :: events[i] == ClockInterrupt(false))
    && forall i | a <= i <= b :: moments[i].clock.runnable == moments[a].clock.runnable
  }

  function Clocks(moments: seq<Moment>, a: nat, b: nat): seq<Sched.Clock>
    requires a <= b < |moments|
  {
    seq(b - a + 1, i requires 0 <= i < b - a + 1 => moments[a + i].clock)
  }

  lemma QuietIsRun(moments: seq<Moment>, events: seq<Event>, idle: nat, n: nat, a: nat, b: nat)
    requires Story(moments, events, idle, n) && Funded(moments[0]) && Quiet(moments, events, a, b) && b <= n
    requires Sched.Sound(moments[a].clock)
    ensures Sched.IsRun(Clocks(moments, a, b))
  {
    var run := Clocks(moments, a, b);
    forall i | 0 <= i < |run| - 1 ensures Sched.TicksAt(run, i) {
      QuietTicks(moments, events, idle, n, a, b, i);
    }
  }

  lemma QuietTicks(moments: seq<Moment>, events: seq<Event>, idle: nat, n: nat, a: nat, b: nat, i: nat)
    requires Story(moments, events, idle, n) && Funded(moments[0]) && Quiet(moments, events, a, b) && b <= n
    requires Sched.Sound(moments[a].clock) && i < b - a
    ensures Sched.TicksAt(Clocks(moments, a, b), i)
  {
    QuietAt(moments, events, idle, n, a, b, a + i);
    assert Clocks(moments, a, b)[i] == moments[a + i].clock && Clocks(moments, a, b)[i + 1] == moments[a + i + 1].clock;
  }

  lemma QuietAt(moments: seq<Moment>, events: seq<Event>, idle: nat, n: nat, a: nat, b: nat, i: nat)
    requires Story(moments, events, idle, n) && Funded(moments[0]) && Quiet(moments, events, a, b) && b <= n
    requires Sched.Sound(moments[a].clock) && a <= i < b
    ensures Sched.Sound(moments[i].clock)
    ensures var c := moments[i].clock; Sched.CanSchedule(Sched.Charge(c)) && moments[i + 1].clock == Sched.Tick(c)
  {
    if a < i { SoundLater(moments, events, idle, n, a, b, i); }
    assert HappenedAt(moments, events, idle, i);
    QuietTick(moments, events, idle, a, b, i);
  }

  lemma QuietTick(moments: seq<Moment>, events: seq<Event>, idle: nat, a: nat, b: nat, i: nat)
    requires Quiet(moments, events, a, b) && a <= i < b && Sched.Sound(moments[i].clock)
    requires HappenedAt(moments, events, idle, i)
    ensures var c := moments[i].clock; Sched.CanSchedule(Sched.Charge(c)) && moments[i + 1].clock == Sched.Tick(c)
  {
    Sched.OneTick(moments[i].clock);
    Sched.InterruptIsTick(moments[i].clock, moments[i + 1].clock);
  }

  lemma SoundLater(moments: seq<Moment>, events: seq<Event>, idle: nat, n: nat, a: nat, b: nat, i: nat)
    requires Story(moments, events, idle, n) && Funded(moments[0]) && Quiet(moments, events, a, b) && b <= n
             && a < i <= b
    ensures Sched.Sound(moments[i].clock)
  {
    assert events[i - 1] == ClockInterrupt(false);
    SoundFrom(moments, events, idle, n, i - 1, i);
  }

  /** Bounded waiting from start-up on: in a quiet time every runnable process gets the processor within one
      interrupt, the ticks then left in all, and the sum of the priorities. */
  lemma WaitsBounded(moments: seq<Moment>, events: seq<Event>, idle: nat, n: nat, a: nat, b: nat, r: nat)
    requires Story(moments, events, idle, n) && Funded(moments[0]) && Quiet(moments, events, a, b) && b <= n && a < b
    requires r < |moments[a + 1].clock.runnable| && moments[a + 1].clock.runnable[r]
    ensures var c := moments[a + 1].clock;
            && Sched.Sound(c)
            && (b - a > Sched.Total(c.runnable, c.ticks) + Sched.RoundLength(c) ==>
                exists k :: a < k <= a + Sched.Total(c.runnable, c.ticks) + Sched.RoundLength(c) && k < |moments|
                            && moments[k].clock.ready == r)
  {
    SoundLater(moments, events, idle, n, a, b, a + 1);
    var c := moments[a + 1].clock;
    if b - a > Sched.Total(c.runnable, c.ticks) + Sched.RoundLength(c) {
      QuietIsRun(moments, events, idle, n, a + 1, b);
      var run := Clocks(moments, a + 1, b);
      assert run[0] == c;
      Sched.BoundedWaiting(run, r);
      var k: nat :| k < Sched.Total(c.runnable, c.ticks) + Sched.RoundLength(c) && run[k].ready == r;
      assert moments[a + 1 + k].clock.ready == r;
    }
  }
}
