/**
 Runs of the message-passing machine with a record of everything sent, delivered and signalled.
 Every send gets a ticket: its position in the record of sends.
 */
module IpcRuns {
  import opened Ipc

  datatype Packet = Packet(src: int, dest: nat, msg: Message)

  /** What arrived, the ticket of the send it answers, and the source that the receiver had asked for. */
  datatype Delivery = Delivery(ticket: nat, packet: Packet, asked: int)

  /** An interrupt message handed to p: what it had asked for, what is in its buffer, and what was there before;
      `waited` says that p was blocked when the interrupt came. */
  datatype Notice = Notice(p: nat, asked: int, msg: Message, held: Message, waited: bool)

  /** `delivered` lists what actually arrived, `notices` the interrupt messages; `ticket[p]` is the ticket of p's latest
      queued send, `asked[p]` the source of its latest receive; `informs`/`notified`/`since` count, per process, the
      interrupts reported, the interrupt messages handed over, and the reports since the last such message. */
  datatype History = History(sent: seq<Packet>, delivered: seq<Delivery>, ticket: seq<nat>, informs: seq<nat>,
                             notified: seq<nat>, since: seq<nat>, asked: seq<int>, notices: seq<Notice>)

  datatype System = System(core: State, h: History)

  datatype Call = Send(src: nat, dest: nat, m: Message) | Receive(p: nat, from: int, buf: Message) | Inform(task: nat)

  // ---------------------------------------------------------------- runs

  /** The calls the kernel accepts: only a running process calls; a send that `deadlock` rejects panics, and a receive
      that blocks while an interrupt is pending fails an assertion, so the run ends there. */
  ghost predicate Legal(s: State, c: Call) {
    WellFormed(s) &&
    match c
    case Send(src, dest, _) =>
      src < s.Size() && dest < s.Size() && src != dest && s.phase[src] == Running && !WaitsFor(s.phase, dest, src)
    case Receive(p, from, _) =>
      p < s.Size() && s.phase[p] == Running && ValidSource(s.Size(), p, from) && !BlocksOnPending(s, p, from)
    case Inform(task) => task < s.Size()
  }

  ghost predicate Sized(y: System) {
    |y.h.ticket| == |y.h.informs| == |y.h.notified| == |y.h.since| == |y.h.asked| == y.core.Size()
  }

  function CoreStep(s: State, c: Call): State
    requires WellFormed(s)
    requires c.Send? ==> c.src < s.Size() && c.dest < s.Size()
    requires c.Receive? ==> c.p < s.Size()
    requires c.Inform? ==> c.task < s.Size()
  {
    match c
    case Send(src, dest, m) => SendStep(s, src, dest, m)
    case Receive(p, from, buf) => ReceiveStep(s, p, from, buf)
    case Inform(task) => InformStep(s, task)
  }

  /** Process p was blocked in a receive and runs again. */
  predicate Woken(s: State, after: State, p: nat)
    requires p < |s.phase| == |after.phase|
  {
    s.phase[p].Receiving? && after.phase[p] == Running
  }

  /** An interrupt message for p in the record. */
  function Notified(h: History, p: nat, n: Notice): History
    requires p < |h.notified| == |h.since|
  {
    h.(notified := h.notified[p := h.notified[p] + 1], since := h.since[p := 0], notices := h.notices + [n])
  }

  /** The record of one call, written from what can be seen of the processes and their buffers before and after it. */
  ghost function Record(y: System, c: Call, after: State): History
    requires Inv(y.core) && Sized(y) && Legal(y.core, c) && |after.buf| == |after.phase| == y.core.Size()
  {
    var s, h, buf := y.core, y.h, after.buf;
    match c
    case Send(src, dest, m) =>
      var h' := h.(sent := h.sent + [Packet(src, dest, buf[src])]);
      if Woken(s, after, dest)
      then h'.(delivered := h.delivered
               + [Delivery(|h.sent|, Packet(buf[dest].source, dest, buf[dest]), h.asked[dest])])
      else h'.(ticket := h.ticket[src := |h.sent|])
    case Receive(p, from, _) =>
      var h', src := h.(asked := h.asked[p := from]), buf[p].source;
      if after.phase[p] != Running then h'
      else if src == INTERRUPT then Notified(h', p, Notice(p, from, buf[p], s.buf[p], false))
      else if 0 <= src < y.core.Size()
      then h'.(delivered := h.delivered + [Delivery(h.ticket[src], Packet(src, p, buf[p]), from)])
      else h'
    case Inform(p) =>
      var h' := h.(informs := h.informs[p := h.informs[p] + 1]);
      if Woken(s, after, p) then Notified(h', p, Notice(p, h.asked[p], buf[p], s.buf[p], true))
      else h'.(since := h.since[p := h.since[p] + 1])
  }

  ghost function Next(y: System, c: Call): System
    requires Inv(y.core) && Sized(y) && Legal(y.core, c)
  {
    var after := CoreStep(y.core, c);
    System(after, Record(y, c, after))
  }

  /** Start-up: the native processes run, the other slots are free, nothing is queued or pending. */
  ghost predicate Initial(y: System) {
    && WellFormed(y.core) && Sized(y)
    && (forall p | 0 <= p < y.core.Size() ::
          && (y.core.phase[p] == Running || y.core.phase[p] == Unused)
          && y.core.queue[p] == [] && !y.core.pending[p]
          && y.h.informs[p] == y.h.notified[p] == y.h.since[p] == 0)
    && y.h.sent == [] && y.h.delivered == [] && y.h.notices == []
  }

  /** A state with an empty record. */
  ghost function Beginning(core: State): System {
    var zeros := seq(core.Size(), _ => 0);
    System(core, History([], [], zeros, zeros, zeros, zeros, seq(core.Size(), _ => NO_TASK), []))
  }

  /** `run` is a sequence of systems, each the result of the next call in `calls`. */
  ghost predicate IsRun(run: seq<System>, calls: seq<Call>) {
    && |run| == |calls| + 1 && Initial(run[0])
    && forall i | 0 <= i < |calls| :: Follows(run[i], calls[i], run[i + 1])
  }

  ghost predicate Follows(y: System, c: Call, y': System) {
    && Inv(y.core) && Sized(y) && Legal(y.core, c)
    && y' == Next(y, c)
  }

  // ---------------------------------------------------------------- the invariant of the record

  /** Every blocked sender still holds, unaltered, the message of its ticket. */
  ghost predicate SendersHold(y: System)
    requires WellFormed(y.core) && Sized(y)
  {
    forall p | 0 <= p < y.core.Size() && y.core.phase[p].Sending? ::
      Holds(y, p)
  }

  ghost predicate Holds(y: System, p: nat)
    requires WellFormed(y.core) && Sized(y) && p < y.core.Size() && y.core.phase[p].Sending?
  {
    && y.h.ticket[p] < |y.h.sent|
    && y.h.sent[y.h.ticket[p]] == Packet(p, y.core.phase[p].dest, y.core.buf[p])
  }

  ghost predicate Arrived(h: History, t: nat) {
    exists i :: 0 <= i < |h.delivered| && h.delivered[i].ticket == t
  }

  ghost predicate HeldBy(y: System, t: nat, p: nat)
    requires WellFormed(y.core) && Sized(y)
  {
    p < y.core.Size() && y.core.phase[p].Sending? && y.h.ticket[p] == t
  }

  /** What arrived is what was sent, and no ticket arrives twice. */
  ghost predicate DeliveriesTrue(h: History) {
    && (forall i | 0 <= i < |h.delivered| ::
          h.delivered[i].ticket < |h.sent| && h.delivered[i].packet == h.sent[h.delivered[i].ticket])
    && (forall i, j | 0 <= i < j < |h.delivered| :: h.delivered[i].ticket != h.delivered[j].ticket)
  }

  /** Each ticket has arrived, or is held by one blocked sender, never both. */
  ghost predicate Conserved(y: System)
    requires WellFormed(y.core) && Sized(y)
  {
    && (forall t: nat | t < |y.h.sent| :: Arrived(y.h, t) || exists p: nat :: HeldBy(y, t, p))
    && (forall t: nat, p: nat :: HeldBy(y, t, p) ==> !Arrived(y.h, t))
    && (forall t: nat, p: nat, q: nat :: HeldBy(y, t, p) && HeldBy(y, t, q) ==> p == q)
  }

  ghost predicate Ordered(ticket: seq<nat>, q: seq<nat>) {
    && (forall i | 0 <= i < |q| :: q[i] < |ticket|)
    && (forall i, j | 0 <= i < j < |q| :: ticket[q[i]] < ticket[q[j]])
  }

  /** Each queue is in the order of the sends. */
  ghost predicate QueuesInOrder(y: System)
    requires WellFormed(y.core)
  {
    forall d | 0 <= d < y.core.Size() :: Ordered(y.h.ticket, y.core.queue[d])
  }

  /** Messages of one sender arrive in the order sent. */
  ghost predicate SourceOrder(h: History) {
    && (forall t | 0 <= t < |h.sent| :: h.sent[t].msg.source == h.sent[t].src)
    && (forall i, j | 0 <= i < j < |h.delivered| && h.delivered[i].packet.src == h.delivered[j].packet.src ::
          h.delivered[i].ticket < h.delivered[j].ticket)
  }

  /** A blocked sender's ticket is the newest it ever drew. */
  ghost predicate NewestHeld(y: System)
    requires WellFormed(y.core) && Sized(y)
  {
    forall p, i | 0 <= p < y.core.Size() && y.core.phase[p].Sending? && 0 <= i < |y.h.delivered| ::
      y.h.delivered[i].packet.src == p ==> y.h.delivered[i].ticket < y.h.ticket[p]
  }

  ghost predicate InterruptsCounted(y: System)
    requires WellFormed(y.core) && Sized(y)
  {
    forall p | 0 <= p < y.core.Size() ::
      && (y.core.pending[p] <==> y.h.since[p] > 0)
      && y.h.notified[p] + (if y.core.pending[p] then 1 else 0) <= y.h.informs[p]
  }

  ghost predicate Faithful(y: System) {
    && Inv(y.core) && Sized(y) && SendersHold(y) && DeliveriesTrue(y.h) && Conserved(y)
    && QueuesInOrder(y) && SourceOrder(y.h) && NewestHeld(y) && InterruptsCounted(y)
  }

  // ---------------------------------------------------------------- deliveries extend the record

  lemma ArrivedGrows(h: History, h': History, e: Delivery)
    requires h'.delivered == h.delivered + [e]
    ensures forall t: nat :: Arrived(h', t) <==> Arrived(h, t) || t == e.ticket
  {
    forall t: nat ensures Arrived(h', t) <==> Arrived(h, t) || t == e.ticket {
      if t == e.ticket { assert h'.delivered[|h.delivered|].ticket == t; }
      if Arrived(h, t) {
        var i :| 0 <= i < |h.delivered| && h.delivered[i].ticket == t;
        assert h'.delivered[i].ticket == t;
      }
    }
  }

  lemma ArrivedSame(h: History, h': History)
    requires h'.delivered == h.delivered
    ensures forall t: nat :: Arrived(h', t) <==> Arrived(h, t)
  {
    forall t: nat ensures Arrived(h', t) <==> Arrived(h, t) {}
  }

  /** Appending a delivery keeps the record true when its ticket is new and the newest of its sender. */
  lemma DeliveryKeepsRecord(h: History, h': History, e: Delivery)
    requires DeliveriesTrue(h) && SourceOrder(h)
    requires h.sent <= h'.sent && h'.delivered == h.delivered + [e]
    requires e.ticket < |h'.sent| && e.packet == h'.sent[e.ticket] && !Arrived(h, e.ticket)
    requires forall t | |h.sent| <= t < |h'.sent| :: h'.sent[t].msg.source == h'.sent[t].src
    requires forall i | 0 <= i < |h.delivered| && h.delivered[i].packet.src == e.packet.src ::
               h.delivered[i].ticket < e.ticket
    ensures DeliveriesTrue(h') && SourceOrder(h')
  {
    forall i | 0 <= i < |h.delivered| ensures h.delivered[i].ticket != e.ticket {}
  }

  /** Delivering ticket e.ticket moves it from its holder, if it had one, to the record. */
  lemma DeliveryConserves(y: System, y': System, e: Delivery)
    requires WellFormed(y.core) && Sized(y) && WellFormed(y'.core) && Sized(y')
    requires Conserved(y)
    requires y'.h.delivered == y.h.delivered + [e]
    requires |y'.h.sent| == |y.h.sent| || (|y'.h.sent| == |y.h.sent| + 1 && e.ticket == |y.h.sent|)
    requires forall t: nat, p: nat :: HeldBy(y', t, p) <==> HeldBy(y, t, p) && t != e.ticket
    ensures Conserved(y')
  {
    ArrivedGrows(y.h, y'.h, e);
    forall t: nat | t < |y'.h.sent| && !Arrived(y'.h, t) ensures exists p: nat :: HeldBy(y', t, p) {
      var p: nat :| HeldBy(y, t, p);
      assert HeldBy(y', t, p);
    }
  }

  /** Senders that stay blocked keep their messages and their tickets. */
  lemma StillHold(y: System, y': System)
    requires WellFormed(y.core) && Sized(y) && WellFormed(y'.core) && Sized(y') && y'.core.Size() == y.core.Size()
    requires SendersHold(y) && y.h.sent <= y'.h.sent && y'.h.ticket == y.h.ticket
    requires forall p | 0 <= p < y.core.Size() && y'.core.phase[p].Sending? ::
               y.core.phase[p] == y'.core.phase[p] && y.core.buf[p] == y'.core.buf[p]
    ensures SendersHold(y')
    ensures forall t: nat, p: nat :: HeldBy(y', t, p) ==> HeldBy(y, t, p)
  {
    forall p | 0 <= p < y.core.Size() && y'.core.phase[p].Sending? ensures Holds(y', p) {
      assert Holds(y, p);
    }
  }

  // ---------------------------------------------------------------- each call keeps the record faithful

  lemma DirectSendFaithful(y: System, src: nat, dest: nat, m: Message)
    requires Faithful(y) && Legal(y.core, Send(src, dest, m)) && Accepts(y.core.phase[dest], src)
    ensures Faithful(Next(y, Send(src, dest, m)))
  {
    var y' := Next(y, Send(src, dest, m));
    var t0 := |y.h.sent|;
    SendKeepsInv(y.core, src, dest, m);
    var e := Delivery(t0, Packet(src, dest, m.(source := src)), y.h.asked[dest]);
    StillHold(y, y');
    assert forall t: nat, p: nat :: HeldBy(y', t, p) <==> HeldBy(y, t, p) && t != t0;
    DeliveryConserves(y, y', e);
    DeliveryKeepsRecord(y.h, y'.h, e);
  }

  lemma TakeFaithful(y: System, p: nat, from: int, m: Message)
    requires Faithful(y) && Legal(y.core, Receive(p, from, m)) && !IntReady(y.core, p, from)
    requires Chosen(y.core, p, from) >= 0
    ensures Faithful(Next(y, Receive(p, from, m)))
  {
    var f := Chosen(y.core, p, from);
    var y' := Next(y, Receive(p, from, m));
    ReceiveKeepsInv(y.core, p, from, m);
    ChosenIsSender(y.core, p, from);
    assert Holds(y, f);
    var t0 := y.h.ticket[f];
    assert HeldBy(y, t0, f);
    var e := Delivery(t0, y.h.sent[t0], from);
    StillHold(y, y');
    TakenHeld(y, p, from, m);
    DeliveryConserves(y, y', e);
    DeliveryKeepsRecord(y.h, y'.h, e);
    OrderedRemove(y.h.ticket, y.core.queue[p], f);
  }

  /** All but the message taken are held as they were. */
  lemma TakenHeld(y: System, p: nat, from: int, m: Message)
    requires Faithful(y) && Legal(y.core, Receive(p, from, m)) && !IntReady(y.core, p, from)
    requires Chosen(y.core, p, from) >= 0
    ensures var y' := Next(y, Receive(p, from, m)); var t0 := y.h.ticket[Chosen(y.core, p, from)];
            && WellFormed(y'.core) && Sized(y')
            && forall t: nat, q: nat :: HeldBy(y', t, q) <==> HeldBy(y, t, q) && t != t0
  {
    ReceiveKeepsInv(y.core, p, from, m);
    ChosenIsSender(y.core, p, from);
    assert HeldBy(y, y.h.ticket[Chosen(y.core, p, from)], Chosen(y.core, p, from));
  }

  lemma QueuedSendConserved(y: System, src: nat, dest: nat, m: Message)
    requires Faithful(y) && Legal(y.core, Send(src, dest, m)) && !Accepts(y.core.phase[dest], src)
    ensures Conserved(Next(y, Send(src, dest, m)))
  {
    var y' := Next(y, Send(src, dest, m));
    var t0 := |y.h.sent|;
    ArrivedSame(y.h, y'.h);
    forall t: nat, p: nat ensures HeldBy(y', t, p) <==> HeldBy(y, t, p) || (t == t0 && p == src) {}
    forall t: nat, p: nat | HeldBy(y, t, p) ensures t < t0 {
      assert Holds(y, p);
    }
    HeldOrArrived(y, y', src);
  }

  /** One message more, held by src; the others are held as they were. */
  lemma HeldOrArrived(y: System, y': System, src: nat)
    requires WellFormed(y.core) && WellFormed(y'.core) && Sized(y) && Sized(y') && Conserved(y)
             && |y'.h.sent| == |y.h.sent| + 1
    requires forall t: nat | t < |y.h.sent| :: Arrived(y'.h, t) <==> Arrived(y.h, t)
    requires forall t: nat, p: nat :: HeldBy(y', t, p) <==> HeldBy(y, t, p) || (t == |y.h.sent| && p == src)
    ensures forall t: nat | t < |y'.h.sent| && !Arrived(y'.h, t) :: exists p: nat :: HeldBy(y', t, p)
  {
    forall t: nat | t < |y'.h.sent| && !Arrived(y'.h, t) ensures exists p: nat :: HeldBy(y', t, p) {
      if t == |y.h.sent| {
        assert HeldBy(y', t, src);
      } else {
        var p: nat :| HeldBy(y, t, p);
        assert HeldBy(y', t, p);
      }
    }
  }

  lemma QueuedSendFaithful(y: System, src: nat, dest: nat, m: Message)
    requires Faithful(y) && Legal(y.core, Send(src, dest, m)) && !Accepts(y.core.phase[dest], src)
    ensures Faithful(Next(y, Send(src, dest, m)))
  {
    var y' := Next(y, Send(src, dest, m));
    SendKeepsInv(y.core, src, dest, m);
    QueuedSendConserved(y, src, dest, m);
    var t0 := |y.h.sent|;
    forall p | 0 <= p < y.core.Size() && y'.core.phase[p].Sending? ensures Holds(y', p) {
      if p != src { assert Holds(y, p); }
    }
    forall d | 0 <= d < y.core.Size() ensures Ordered(y'.h.ticket, y'.core.queue[d]) {
      forall i | 0 <= i < |y.core.queue[d]| ensures y.core.queue[d][i] != src && y.h.ticket[y.core.queue[d][i]] < t0 {
        var p := y.core.queue[d][i];
        assert p in y.core.queue[d];
        assert SendsTo(y.core.phase, p, d);
        assert Holds(y, p);
      }
      OrderedAppend(y.h.ticket, y.core.queue[d], src, t0);
    }
  }

  lemma OrderedAppend(ticket: seq<nat>, q: seq<nat>, p: nat, t: nat)
    requires Ordered(ticket, q) && p < |ticket|
    requires forall i | 0 <= i < |q| :: q[i] != p && ticket[q[i]] < t
    ensures Ordered(ticket[p := t], q) && Ordered(ticket[p := t], q + [p])
  {
  }

  lemma OrderedRemove(ticket: seq<nat>, q: seq<nat>, f: nat)
    requires Ordered(ticket, q) && NoDuplicates(q) && f in q
    ensures Ordered(ticket, Remove(q, f))
  {
    var k: nat :| k < |q| && q[k] == f;
    RemoveAt(q, k);
    assert Ordered(ticket, q[..k] + q[k + 1..]);
  }

  /** Calls that hand over no message leave the record of messages as it was. */
  lemma QuietConserves(y: System, y': System)
    requires WellFormed(y.core) && Sized(y) && WellFormed(y'.core) && Sized(y') && Conserved(y)
    requires y'.h.sent == y.h.sent && y'.h.delivered == y.h.delivered
    requires forall t: nat, q: nat :: HeldBy(y', t, q) <==> HeldBy(y, t, q)
    ensures Conserved(y')
  {
    ArrivedSame(y.h, y'.h);
    forall t: nat | t < |y'.h.sent| && !Arrived(y'.h, t) ensures exists p: nat :: HeldBy(y', t, p) {
      var p: nat :| HeldBy(y, t, p);
      assert HeldBy(y', t, p);
    }
  }

  lemma QuietReceiveFaithful(y: System, p: nat, from: int, m: Message)
    requires Faithful(y) && Legal(y.core, Receive(p, from, m))
    requires IntReady(y.core, p, from) || Chosen(y.core, p, from) < 0
    ensures Faithful(Next(y, Receive(p, from, m)))
  {
    var y' := Next(y, Receive(p, from, m));
    ReceiveKeepsInv(y.core, p, from, m);
    StillHold(y, y');
    QuietConserves(y, y');
  }

  lemma InformFaithful(y: System, p: nat)
    requires Faithful(y) && Legal(y.core, Inform(p))
    ensures Faithful(Next(y, Inform(p)))
  {
    var y' := Next(y, Inform(p));
    InformKeepsInv(y.core, p);
    StillHold(y, y');
    QuietConserves(y, y');
  }

  lemma StepFaithful(y: System, c: Call, y': System)
    requires Faithful(y) && Follows(y, c, y')
    ensures Faithful(y')
  {
    match c
    case Send(src, dest, m) =>
      if Accepts(y.core.phase[dest], src) { DirectSendFaithful(y, src, dest, m); }
      else { QueuedSendFaithful(y, src, dest, m); }
    case Receive(p, from, m) =>
      if !IntReady(y.core, p, from) && Chosen(y.core, p, from) >= 0 { TakeFaithful(y, p, from, m); }
      else { QuietReceiveFaithful(y, p, from, m); }
    case Inform(p) =>
      InformFaithful(y, p);
  }

  lemma InitialFaithful(y: System)
    requires Initial(y)
    ensures Faithful(y)
  {
    NoSendersAcyclic(y.core.phase);
  }

  /** Every state of every run keeps the whole invariant. */
  lemma {:induction false} RunFaithful(run: seq<System>, calls: seq<Call>, k: nat)
    requires IsRun(run, calls) && k < |run|
    ensures Faithful(run[k])
  {
    if k == 0 {
      InitialFaithful(run[0]);
    } else {
      RunFaithful(run, calls, k - 1);
      assert Follows(run[k - 1], calls[k - 1], run[k]);
      StepFaithful(run[k - 1], calls[k - 1], run[k]);
    }
  }

  // ---------------------------------------------------------------- the record is that of the calls

  /** The packets of the send calls, in order, stamped with their senders. */
  function Sends(calls: seq<Call>): seq<Packet> {
    if calls == [] then []
    else
      var c := calls[|calls| - 1];
      Sends(calls[..|calls| - 1]) + if c.Send? then [Packet(c.src, c.dest, c.m.(source := c.src))] else []
  }

  /** How many interrupts were reported to p. */
  function Informs(calls: seq<Call>, p: nat): nat {
    if calls == [] then 0 else Informs(calls[..|calls| - 1], p) + if calls[|calls| - 1] == Inform(p) then 1 else 0
  }

  lemma StepRecords(y: System, c: Call)
    requires Inv(y.core) && Sized(y) && Legal(y.core, c)
    ensures Next(y, c).h.sent == y.h.sent + if c.Send? then [Packet(c.src, c.dest, c.m.(source := c.src))] else []
    ensures |Next(y, c).h.informs| == |y.h.informs|
    ensures forall p | 0 <= p < |y.h.informs| ::
              Next(y, c).h.informs[p] == y.h.informs[p] + if c == Inform(p) then 1 else 0
  {
  }

  /** The record holds exactly the sends and the interrupts of the calls, in order and with the messages given. */
  lemma {:induction false} RecordOfCalls(run: seq<System>, calls: seq<Call>, k: nat)
    requires IsRun(run, calls) && k < |run|
    ensures run[k].h.sent == Sends(calls[..k])
    ensures Sized(run[k]) && forall p | 0 <= p < run[k].core.Size() :: run[k].h.informs[p] == Informs(calls[..k], p)
  {
    RunFaithful(run, calls, k);
    if k > 0 {
      RecordOfCalls(run, calls, k - 1);
      assert Follows(run[k - 1], calls[k - 1], run[k]);
      StepRecords(run[k - 1], calls[k - 1]);
      assert calls[..k][..k - 1] == calls[..k - 1] && calls[..k][k - 1] == calls[k - 1];
    }
  }

  // ---------------------------------------------------------------- what a run guarantees

  /** In every reachable state nobody waits in a circle and nobody sleeps on something already there. */
  lemma NoDeadlockNoLostWakeup(run: seq<System>, calls: seq<Call>, k: nat)
    requires IsRun(run, calls) && k < |run|
    ensures Inv(run[k].core)
    ensures forall a: nat :: !WaitsFor(run[k].core.phase, a, a)
    ensures forall d, p | 0 <= d < run[k].core.Size() && 0 <= p < run[k].core.Size() ::
              !(run[k].core.phase[p] == Sending(d)
                && (run[k].core.phase[d] == Receiving(ANY) || run[k].core.phase[d] == Receiving(p)))
    ensures forall d | 0 <= d < run[k].core.Size() && run[k].core.pending[d] ::
              run[k].core.phase[d] != Receiving(ANY) && run[k].core.phase[d] != Receiving(INTERRUPT)
  {
    RunFaithful(run, calls, k);
    var s := run[k].core;
    forall d, p | 0 <= d < s.Size() && 0 <= p < s.Size() && s.phase[p] == Sending(d)
      ensures s.phase[d] != Receiving(ANY) && s.phase[d] != Receiving(p)
    {
      assert SendsTo(s.phase, p, d);
      assert p in s.queue[d];
    }
  }

  /** Exactly once: a sent message has arrived, unaltered and once, or its sender is still blocked with it. */
  lemma ExactlyOnce(run: seq<System>, calls: seq<Call>, k: nat, t: nat)
    requires IsRun(run, calls) && k < |run| && t < |run[k].h.sent|
    ensures Faithful(run[k])
    ensures Arrived(run[k].h, t) <==> !exists p: nat :: HeldBy(run[k], t, p)
    ensures forall i, j | 0 <= i < |run[k].h.delivered| && 0 <= j < |run[k].h.delivered| ::
              run[k].h.delivered[i].ticket == t && run[k].h.delivered[j].ticket == t ==> i == j
    ensures forall i | 0 <= i < |run[k].h.delivered| && run[k].h.delivered[i].ticket == t ::
              && run[k].h.delivered[i].packet == run[k].h.sent[t]
              && run[k].h.delivered[i].packet.src == run[k].h.sent[t].msg.source
    ensures forall p: nat | HeldBy(run[k], t, p) ::
              run[k].h.sent[t] == Packet(p, run[k].core.phase[p].dest, run[k].core.buf[p])
  {
    RunFaithful(run, calls, k);
    forall p: nat | HeldBy(run[k], t, p)
      ensures run[k].h.sent[t] == Packet(p, run[k].core.phase[p].dest, run[k].core.buf[p])
    {
      assert Holds(run[k], p);
    }
  }

  // ---------------------------------------------------------------- a receiver gets what it asked for

  /** Who is blocked in a receive asked for what it waits for. */
  ghost predicate AskedTrue(y: System)
    requires Sized(y)
  {
    forall p | 0 <= p < y.core.Size() && y.core.phase[p].Receiving? :: y.h.asked[p] == y.core.phase[p].from
  }

  /** A message goes to who asked for anybody's, or for that of its sender. */
  ghost predicate DeliveriesAsked(h: History) {
    forall i | 0 <= i < |h.delivered| ::
      h.delivered[i].asked == ANY || h.delivered[i].asked == h.delivered[i].packet.src
  }

  /** An interrupt message goes to who asked for anybody's or for interrupts.  It has source -10 and kind 1; its body is
      zero when the interrupt was pending, and otherwise what the buffer held. */
  ghost predicate NoticeTrue(n: Notice) {
    && (n.asked == ANY || n.asked == INTERRUPT)
    && n.msg == Message(-10, 1, if n.waited then n.held.body else [0, 0, 0, 0, 0, 0, 0, 0, 0, 0])
  }

  function NoticesTo(notices: seq<Notice>, p: nat): nat {
    if notices == [] then 0
    else NoticesTo(notices[..|notices| - 1], p) + if notices[|notices| - 1].p == p then 1 else 0
  }

  /** The record has every interrupt message. */
  ghost predicate NoticesTrue(y: System)
    requires Sized(y)
  {
    && (forall i | 0 <= i < |y.h.notices| :: NoticeTrue(y.h.notices[i]))
    && forall p | 0 <= p < y.core.Size() :: y.h.notified[p] == NoticesTo(y.h.notices, p)
  }

  ghost predicate AnswersTrue(y: System)
    requires Sized(y)
  {
    AskedTrue(y) && DeliveriesAsked(y.h) && NoticesTrue(y)
  }

  lemma NoticeAdded(notices: seq<Notice>, n: Notice, p: nat)
    ensures NoticesTo(notices + [n], p) == NoticesTo(notices, p) + if n.p == p then 1 else 0
  {
    assert (notices + [n])[..|notices + [n]| - 1] == notices;
  }

  lemma NoticeKeeps(y: System, y': System, n: Notice)
    requires Sized(y) && Sized(y') && y'.core.Size() == y.core.Size() && NoticesTrue(y) && n.p < y.core.Size()
    requires NoticeTrue(n) && y'.h.notices == y.h.notices + [n]
             && y'.h.notified == y.h.notified[n.p := y.h.notified[n.p] + 1]
    ensures NoticesTrue(y')
  {
    forall p | 0 <= p < y'.core.Size() ensures y'.h.notified[p] == NoticesTo(y'.h.notices, p) {
      NoticeAdded(y.h.notices, n, p);
    }
  }

  lemma SendAnswers(y: System, src: nat, dest: nat, m: Message)
    requires Faithful(y) && AnswersTrue(y) && Legal(y.core, Send(src, dest, m))
    ensures Sized(Next(y, Send(src, dest, m))) && AnswersTrue(Next(y, Send(src, dest, m)))
  {
  }

  lemma ReceiveAnswers(y: System, p: nat, from: int, m: Message)
    requires Faithful(y) && AnswersTrue(y) && Legal(y.core, Receive(p, from, m))
    ensures Sized(Next(y, Receive(p, from, m))) && AnswersTrue(Next(y, Receive(p, from, m)))
  {
    var y' := Next(y, Receive(p, from, m));
    ChosenIsSender(y.core, p, from);
    var f := Chosen(y.core, p, from);
    if IntReady(y.core, p, from) {
      NoticeKeeps(y, y', Notice(p, from, y'.core.buf[p], y.core.buf[p], false));
    } else if f >= 0 {
      assert Holds(y, f);
    }
  }

  lemma InformAnswers(y: System, p: nat)
    requires Faithful(y) && AnswersTrue(y) && Legal(y.core, Inform(p))
    ensures Sized(Next(y, Inform(p))) && AnswersTrue(Next(y, Inform(p)))
  {
    var y' := Next(y, Inform(p));
    if Woken(y.core, y'.core, p) {
      NoticeKeeps(y, y', Notice(p, y.h.asked[p], y'.core.buf[p], y.core.buf[p], true));
    }
  }

  lemma StepAnswers(y: System, c: Call)
    requires Faithful(y) && AnswersTrue(y) && Legal(y.core, c)
    ensures Sized(Next(y, c)) && AnswersTrue(Next(y, c))
  {
    match c
    case Send(src, dest, m) => SendAnswers(y, src, dest, m);
    case Receive(p, from, m) => ReceiveAnswers(y, p, from, m);
    case Inform(p) => InformAnswers(y, p);
  }

  /** Over every run a receiver gets only what it asked for, and every interrupt message is one. */
  lemma {:induction false} OnlyWhatWasAsked(run: seq<System>, calls: seq<Call>, k: nat)
    requires IsRun(run, calls) && k < |run|
    ensures Sized(run[k]) && AnswersTrue(run[k])
  {
    if k > 0 {
      OnlyWhatWasAsked(run, calls, k - 1);
      RunFaithful(run, calls, k - 1);
      assert Follows(run[k - 1], calls[k - 1], run[k]);
      StepAnswers(run[k - 1], calls[k - 1]);
    }
  }

  /** A send wakes its receiver only from a receive from anybody or from the sender, an interrupt only from one from
      anybody or for interrupts, and a receive wakes nobody but one sender to the caller, the one asked for. */
  lemma WakesWhoAsked(run: seq<System>, calls: seq<Call>, k: nat, p: nat)
    requires IsRun(run, calls) && k < |calls|
    ensures run[k + 1].core.Size() == run[k].core.Size() == |run[k].core.phase|
    ensures p < run[k].core.Size() && run[k].core.phase[p] != Running && run[k + 1].core.phase[p] == Running ==>
              match calls[k]
              case Send(src, dest, _) =>
                p == dest && (run[k].core.phase[p] == Receiving(ANY) || run[k].core.phase[p] == Receiving(src))
              case Inform(task) =>
                p == task && (run[k].core.phase[p] == Receiving(ANY) || run[k].core.phase[p] == Receiving(INTERRUPT))
              case Receive(q, from, _) => run[k].core.phase[p] == Sending(q) && (from == ANY || from == p)
  {
    RunFaithful(run, calls, k);
    assert Follows(run[k], calls[k], run[k + 1]);
    var s := run[k].core;
    if calls[k].Receive? { ChosenIsSender(s, calls[k].p, calls[k].from); }
  }

  /** A call touches the phase and the buffer of its caller and of at most one other, the one it sends to, takes from or
      informs; nobody but an informed task, or a receiver who takes one, gains or loses a pending interrupt. */
  lemma OthersUntouched(run: seq<System>, calls: seq<Call>, k: nat, p: nat)
    requires IsRun(run, calls) && k < |calls|
    ensures var s, s' := run[k].core, run[k + 1].core;
            && |s.phase| == |s.buf| == |s.pending| == |s'.phase| == |s'.buf| == |s'.pending|
            && (p < |s.phase| ==>
                match calls[k]
                case Send(src, dest, _) =>
                  s'.pending[p] == s.pending[p]
                  && (p != src && p != dest ==> s'.phase[p] == s.phase[p] && s'.buf[p] == s.buf[p])
                case Receive(q, _, _) =>
                  p != q ==> s'.pending[p] == s.pending[p] && s'.buf[p] == s.buf[p]
                             && (s'.phase[p] == s.phase[p] || (s.phase[p] == Sending(q) && s'.phase[p] == Running))
                case Inform(task) =>
                  p != task ==> s'.pending[p] == s.pending[p] && s'.buf[p] == s.buf[p] && s'.phase[p] == s.phase[p])
  {
    RunFaithful(run, calls, k);
    assert Follows(run[k], calls[k], run[k + 1]);
    if calls[k].Receive? { ChosenIsSender(run[k].core, calls[k].p, calls[k].from); }
  }

  /** A receive that can be served is served at once, a pending interrupt before any message; otherwise the caller waits
      for just what it asked for. */
  lemma ReceiveServes(run: seq<System>, calls: seq<Call>, k: nat, p: nat, from: int, m: Message)
    requires IsRun(run, calls) && k < |calls| && calls[k] == Receive(p, from, m)
    ensures p < run[k].core.Size() && run[k].core.Size() == |run[k].core.pending|
    ensures Sized(run[k]) && Sized(run[k + 1]) && run[k + 1].core.Size() == run[k].core.Size()
    ensures var s, s', h, h' := run[k].core, run[k + 1].core, run[k].h, run[k + 1].h;
            if s.pending[p] && (from == ANY || from == INTERRUPT) then
              && s'.phase[p] == Running && |h'.notices| == |h.notices| + 1
              && h'.delivered == h.delivered && s'.queue == s.queue
            else if exists q :: 0 <= q < s.Size() && s.phase[q] == Sending(p) && (from == ANY || from == q) then
              s'.phase[p] == Running && |h'.delivered| == |h.delivered| + 1 && h'.notices == h.notices
            else s'.phase[p] == Receiving(from) && h'.delivered == h.delivered && h'.notices == h.notices
  {
    RunFaithful(run, calls, k);
    RunFaithful(run, calls, k + 1);
    assert Follows(run[k], calls[k], run[k + 1]);
    var s := run[k].core;
    ChosenIsSender(s, p, from);
    ChosenExists(s, p, from);
    if Chosen(s, p, from) >= 0 { assert Holds(run[k], Chosen(s, p, from)); }
  }

  /** A send to who waits for it is handed over at once, and the sender goes on; otherwise the sender waits at the end
      of the queue. */
  lemma SendServes(run: seq<System>, calls: seq<Call>, k: nat, src: nat, dest: nat, m: Message)
    requires IsRun(run, calls) && k < |calls| && calls[k] == Send(src, dest, m)
    ensures Sized(run[k]) && Sized(run[k + 1]) && run[k + 1].core.Size() == run[k].core.Size() == |run[k].core.queue|
    ensures src < run[k].core.Size() && dest < run[k].core.Size()
    ensures WellFormed(run[k + 1].core)
    ensures var s, s', h, h' := run[k].core, run[k + 1].core, run[k].h, run[k + 1].h;
            if s.phase[dest] == Receiving(ANY) || s.phase[dest] == Receiving(src) then
              && s'.phase[dest] == s'.phase[src] == Running && s'.buf[dest] == m.(source := src)
              && |h'.delivered| == |h.delivered| + 1 && s'.queue == s.queue
            else
              && s'.phase[src] == Sending(dest) && s'.phase[dest] == s.phase[dest] && s'.buf[dest] == s.buf[dest]
              && s'.queue == s.queue[dest := s.queue[dest] + [src]] && h'.delivered == h.delivered
  {
    RunFaithful(run, calls, k);
    RunFaithful(run, calls, k + 1);
    assert Follows(run[k], calls[k], run[k + 1]);
  }

  /** An interrupt for who waits for it is handed over at once; otherwise it is pending, and nothing else changes. */
  lemma InformServes(run: seq<System>, calls: seq<Call>, k: nat, p: nat)
    requires IsRun(run, calls) && k < |calls| && calls[k] == Inform(p)
    ensures p < run[k].core.Size() && run[k + 1].core.Size() == run[k].core.Size() == |run[k].core.pending|
    ensures var s, s', h, h' := run[k].core, run[k + 1].core, run[k].h, run[k + 1].h;
            if s.phase[p] == Receiving(ANY) || s.phase[p] == Receiving(INTERRUPT) then
              && s'.phase == s.phase[p := Running] && s'.pending == s.pending[p := false]
              && |h'.notices| == |h.notices| + 1 && s'.queue == s.queue
            else s' == s.(pending := s.pending[p := true]) && h'.notices == h.notices
  {
    RunFaithful(run, calls, k);
    assert Follows(run[k], calls[k], run[k + 1]);
  }

  /** A sender is chosen exactly when one that fits is waiting. */
  lemma ChosenExists(s: State, p: nat, from: int)
    requires Inv(s) && p < s.Size() && ValidSource(s.Size(), p, from)
    ensures Chosen(s, p, from) >= 0 <==>
            exists q :: 0 <= q < s.Size() && s.phase[q] == Sending(p) && (from == ANY || from == q)
  {
    forall q | 0 <= q < s.Size() && s.phase[q] == Sending(p) ensures q in s.queue[p] {
      assert SendsTo(s.phase, q, p);
    }
    if from == ANY && s.queue[p] != [] {
      var q := s.queue[p][0];
      assert q in s.queue[p];
      assert SendsTo(s.phase, q, p);
    }
  }

  /** First come, first served: RECEIVE from ANY takes the oldest of all messages waiting for the caller. */
  lemma OldestFirst(run: seq<System>, calls: seq<Call>, k: nat, p: nat, buf: Message, q: nat)
    requires IsRun(run, calls) && k < |calls| && calls[k] == Receive(p, ANY, buf)
    requires WellFormed(run[k].core) && p < run[k].core.Size() && !run[k].core.pending[p]
    requires SendsTo(run[k].core.phase, q, p)
    ensures Faithful(run[k]) && |run[k + 1].h.delivered| == |run[k].h.delivered| + 1
    ensures q < run[k].core.Size() && run[k + 1].h.delivered[|run[k].h.delivered|].ticket <= run[k].h.ticket[q]
  {
    RunFaithful(run, calls, k);
    assert Follows(run[k], calls[k], run[k + 1]);
    var y := run[k];
    ChosenIsSender(y.core, p, ANY);
    assert q in y.core.queue[p];
    var i :| 0 <= i < |y.core.queue[p]| && y.core.queue[p][i] == q;
  }

  /** RECEIVE from one process leaves the other waiting senders in their order. */
  lemma OthersKeepOrder(s: State, p: nat, from: nat, m: Message)
    requires Inv(s) && p < s.Size() && from < s.Size() && s.phase[from] == Sending(p) && from != ANY
    ensures exists k :: 0 <= k < |s.queue[p]| && s.queue[p][k] == from
                        && ReceiveStep(s, p, from, m).queue == s.queue[p := s.queue[p][..k] + s.queue[p][k + 1..]]
  {
    assert SendsTo(s.phase, from, p);
    var k: nat :| k < |s.queue[p]| && s.queue[p][k] == from;
    RemoveAt(s.queue[p], k);
    assert ReceiveStep(s, p, from, m).queue == s.queue[p := s.queue[p][..k] + s.queue[p][k + 1..]];
  }

  /** Interrupt messages never outnumber the interrupts, and one is pending exactly when some
      interrupt came after the last message. */
  lemma InterruptsNeitherLostNorInvented(run: seq<System>, calls: seq<Call>, k: nat, p: nat)
    requires IsRun(run, calls) && k < |run| && p < run[k].core.Size()
    ensures Faithful(run[k])
    ensures run[k].h.notified[p] + (if run[k].core.pending[p] then 1 else 0) <= run[k].h.informs[p]
    ensures run[k].core.pending[p] <==> run[k].h.since[p] > 0
  {
    RunFaithful(run, calls, k);
  }

  /** One interrupt after start-up, a receive from another process is no call that the kernel accepts: it would block
      with the interrupt pending. */
  lemma BlocksWithInterruptPending(y: System, m: Message) returns (run: seq<System>)
    requires Initial(y) && y.core.Size() >= 2 && y.core.phase[0] == Running && y.core.phase[1] == Running
    ensures IsRun(run, [Inform(0)]) && run[0] == y && WellFormed(run[1].core) && run[1].core.Size() > 0
    ensures run[1].core.phase[0] == Running && !Legal(run[1].core, Receive(0, 1, m))
    ensures var s := ReceiveStep(run[1].core, 0, 1, m); s.phase[0] == Receiving(1) && s.pending[0]
  {
    InitialFaithful(y);
    InformFaithful(y, 0);
    run := [y, Next(y, Inform(0))];
    assert Follows(run[0], Inform(0), run[1]);
  }

  /** A process that makes no call of its own stays runnable whatever the others do. */
  lemma IdleStaysRunnable(s: State, c: Call, idle: nat)
    requires Inv(s) && Legal(s, c) && idle < s.Size() && s.phase[idle] == Running
    requires c.Send? ==> c.src != idle
    requires c.Receive? ==> c.p != idle
    ensures CoreStep(s, c).Size() == s.Size() && CoreStep(s, c).phase[idle] == Running
  {
  }

  /** A run seen without its record: what the kernel itself goes through. */
  ghost predicate CoreRun(cores: seq<State>, calls: seq<Call>) {
    |cores| == |calls| + 1 && forall i | 0 <= i < |calls| :: CoreStepAt(cores, calls, i)
  }

  ghost predicate CoreStepAt(cores: seq<State>, calls: seq<Call>, i: nat)
    requires |cores| == |calls| + 1 && i < |calls|
  {
    Legal(cores[i], calls[i]) && cores[i + 1] == CoreStep(cores[i], calls[i])
  }

  lemma ExtendCoreRun(cores: seq<State>, calls: seq<Call>, c: Call, s: State)
    requires CoreRun(cores, calls) && Legal(cores[|calls|], c) && s == CoreStep(cores[|calls|], c)
    ensures CoreRun(cores + [s], calls + [c])
  {
    forall i | 0 <= i < |calls| + 1 ensures CoreStepAt(cores + [s], calls + [c], i) {
      if i < |calls| { assert CoreStepAt(cores, calls, i); }
    }
  }

  /** Every such run has a record, so all of the above holds of it. */
  lemma {:induction false} RecordOfRun(start: System, cores: seq<State>, calls: seq<Call>) returns (run: seq<System>)
    requires Initial(start) && CoreRun(cores, calls) && cores[0] == start.core
    ensures IsRun(run, calls) && run[|calls|].core == cores[|calls|]
    ensures forall i | 0 <= i < |run| :: run[i].core == cores[i]
    decreases |calls|
  {
    if calls == [] {
      run := [start];
    } else {
      var k := |calls| - 1;
      var cs, ks := cores[..k + 1], calls[..k];
      forall i | 0 <= i < k ensures CoreStepAt(cs, ks, i) {
        assert CoreStepAt(cores, calls, i);
      }
      var r := RecordOfRun(start, cs, ks);
      RunFaithful(r, ks, k);
      assert CoreStepAt(cores, calls, k);
      run := r + [Next(r[k], calls[k])];
      forall i | 0 <= i < |calls| ensures Follows(run[i], calls[i], run[i + 1]) {
        if i < k { assert Follows(r[i], ks[i], r[i + 1]); }
      }
    }
  }

  /** The kernel stamps the caller into the message before anything else; the steps are the same. */
  lemma StampedStep(s: State, c: Call, p: nat, m: Message)
    requires WellFormed(s) && p < s.Size() && !c.Inform?
    requires c.Send? ==> c.src == p && c.dest < s.Size() && c.m == m
    requires c.Receive? ==> c.p == p && c.buf == m
    ensures var m' := m.(source := p); var s' := s.(buf := s.buf[p := m']);
            WellFormed(s') && CoreStep(s, c) == if c.Send? then SendStep(s', p, c.dest, m')
                else ReceiveStep(s', p, c.from, m')
    ensures var s' := s.(buf := s.buf[p := m.(source := p)]);
            (Inv(s) ==> Inv(s')) && forall from :: BlocksOnPending(s', p, from) <==> BlocksOnPending(s, p, from)
  {
  }
}
