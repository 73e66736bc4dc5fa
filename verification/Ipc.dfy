/**
 Synchronous message passing as an abstract machine: who is running, who is blocked on whom,
 in which order senders queue up, which interrupts are pending.  The kernel's process table
 (module Kernel) is proved to implement exactly these steps; what every run of these steps
 keeps is proved here and in module IpcRuns.
 */
module Ipc {

  const NR_TASKS := 5
  const NR_PROCS := 32
  const MAX_TABLE := NR_TASKS + NR_PROCS
  const ANY := MAX_TABLE + 10
  const NO_TASK := MAX_TABLE + 20
  const INTERRUPT := -10
  const HARDWARE_INT := 1

  datatype Message = Message(source: int, kind: int, body: seq<int>)

  /** What reset_msg leaves in a message: the union holds ten 32-bit words. */
  const ZERO_BODY: seq<int> := [0, 0, 0, 0, 0, 0, 0, 0, 0, 0]

  datatype Phase = Running | Sending(dest: int) | Receiving(from: int) | Unused

  /** `buf[p]` is the MESSAGE the current system call of process p points to;
      `queue[d]` lists the processes blocked sending to d, the oldest first. */
  datatype State = State(phase: seq<Phase>, buf: seq<Message>, queue: seq<seq<nat>>, pending: seq<bool>)
  {
    function Size(): nat { |phase| }
  }

  // ---------------------------------------------------------------- the wait-for graph

  ghost predicate SendsTo(phase: seq<Phase>, a: nat, b: nat) {
    a < |phase| && phase[a] == Sending(b)
  }

  /** A nonempty walk along sendto edges. */
  ghost predicate Trail(phase: seq<Phase>, c: seq<nat>) {
    && |c| > 0
    && forall j | 0 <= j < |c| - 1 :: SendsTo(phase, c[j], c[j + 1])
  }

  ghost predicate TrailFromTo(phase: seq<Phase>, c: seq<nat>, a: nat, b: nat) {
    Trail(phase, c) && |c| >= 2 && c[0] == a && c[|c| - 1] == b
  }

  /** a is blocked, directly or through other senders, on b. */
  ghost predicate WaitsFor(phase: seq<Phase>, a: nat, b: nat) {
    exists c :: TrailFromTo(phase, c, a, b)
  }

  ghost predicate Acyclic(phase: seq<Phase>) {
    forall a :: !WaitsFor(phase, a, a)
  }

  // ---------------------------------------------------------------- the invariant

  ghost predicate NoDuplicates(q: seq<nat>) {
    forall i, j | 0 <= i < j < |q| :: q[i] != q[j]
  }

  ghost predicate ValidSource(n: nat, p: nat, from: int) {
    from == ANY || from == INTERRUPT || (0 <= from < n && from != p)
  }

  ghost predicate WellFormed(s: State) {
    && |s.phase| == |s.buf| == |s.queue| == |s.pending| <= MAX_TABLE
    && (forall p | 0 <= p < s.Size() && s.phase[p].Sending? :: 0 <= s.phase[p].dest < s.Size() && s.phase[p].dest != p)
    && (forall p | 0 <= p < s.Size() && s.phase[p].Receiving? :: ValidSource(s.Size(), p, s.phase[p].from))
    && (forall d, p | 0 <= d < s.Size() && p in s.queue[d] :: p < s.Size())
  }

  /** Each queue is a duplicate-free list of exactly the processes sending to its owner. */
  ghost predicate QueuesExact(s: State)
    requires WellFormed(s)
  {
    forall d | 0 <= d < s.Size() ::
      && NoDuplicates(s.queue[d])
      && (forall p: nat :: p in s.queue[d] <==> SendsTo(s.phase, p, d))
  }

  /** Nobody sleeps on something that is already there. */
  ghost predicate NoLostWakeup(s: State)
    requires WellFormed(s)
  {
    forall d | 0 <= d < s.Size() && s.phase[d].Receiving? ::
      && (s.phase[d].from == ANY ==> s.queue[d] == [])
      && (s.phase[d].from == ANY || s.phase[d].from == INTERRUPT ==> !s.pending[d])
      && (0 <= s.phase[d].from ==> !SendsTo(s.phase, s.phase[d].from, d))
  }

  ghost predicate Inv(s: State) {
    WellFormed(s) && QueuesExact(s) && NoLostWakeup(s) && Acyclic(s.phase)
  }

  // ---------------------------------------------------------------- the steps

  predicate Accepts(ph: Phase, src: nat) {
    ph.Receiving? && (ph.from == src || ph.from == ANY)
  }

  /** SEND of m by the running process src; the kernel has stamped the source. */
  function SendStep(s: State, src: nat, dest: nat, m: Message): State
    requires WellFormed(s) && src < s.Size() && dest < s.Size()
  {
    var m' := m.(source := src);
    if Accepts(s.phase[dest], src) then
      s.(buf := s.buf[src := m'][dest := m'], phase := s.phase[dest := Running])
    else
      s.(buf := s.buf[src := m'], phase := s.phase[src := Sending(dest)],
         queue := s.queue[dest := s.queue[dest] + [src]])
  }

  function Remove(q: seq<nat>, f: nat): seq<nat> {
    if q == [] then [] else if q[0] == f then q[1..] else [q[0]] + Remove(q[1..], f)
  }

  /** p takes the message of the blocked sender f. */
  function Take(s: State, p: nat, f: nat): State
    requires WellFormed(s) && p < s.Size() && f < s.Size()
  {
    s.(buf := s.buf[p := s.buf[f]], phase := s.phase[f := Running],
       queue := s.queue[p := Remove(s.queue[p], f)])
  }

  predicate IntReady(s: State, p: nat, from: int)
    requires WellFormed(s) && p < s.Size()
  {
    s.pending[p] && (from == ANY || from == INTERRUPT)
  }

  /** The blocked sender that a RECEIVE of p from `from` picks, or -1. */
  function Chosen(s: State, p: nat, from: int): (f: int)
    requires WellFormed(s) && p < s.Size()
    ensures -1 <= f < s.Size() && (from != ANY && f >= 0 ==> f == from)
  {
    if from == ANY then
      if s.queue[p] != [] then assert s.queue[p][0] in s.queue[p]; s.queue[p][0] else -1
    else if 0 <= from < s.Size() && s.phase[from] == Sending(p) then from
    else -1
  }

  /** A RECEIVE of p from one process finds nothing, while an interrupt is pending for p: the assertion at the end of
      msg_receive fails. */
  predicate BlocksOnPending(s: State, p: nat, from: int)
    requires WellFormed(s) && p < s.Size()
  {
    s.pending[p] && from != ANY && from != INTERRUPT && Chosen(s, p, from) < 0
  }

  /** RECEIVE by the running process p; m is what its buffer holds at the call. */
  function ReceiveStep(s: State, p: nat, from: int, m: Message): State
    requires WellFormed(s) && p < s.Size()
  {
    if IntReady(s, p, from) then
      s.(buf := s.buf[p := Message(INTERRUPT, HARDWARE_INT, ZERO_BODY)], pending := s.pending[p := false])
    else
      var s' := s.(buf := s.buf[p := m.(source := p)]);
      if Chosen(s, p, from) >= 0 then Take(s', p, Chosen(s, p, from))
      else s'.(phase := s.phase[p := Receiving(from)])
  }

  predicate TakesInterrupt(s: State, p: nat)
    requires p < s.Size()
  {
    s.phase[p] == Receiving(ANY) || s.phase[p] == Receiving(INTERRUPT)
  }

  /** An interrupt is reported to p. */
  function InformStep(s: State, p: nat): State
    requires WellFormed(s) && p < s.Size()
  {
    if TakesInterrupt(s, p) then
      s.(buf := s.buf[p := s.buf[p].(source := INTERRUPT, kind := HARDWARE_INT)],
         phase := s.phase[p := Running], pending := s.pending[p := false])
    else
      s.(pending := s.pending[p := true])
  }

  // ---------------------------------------------------------------- removing from a queue

  lemma {:induction false} RemoveAt(q: seq<nat>, k: nat)
    requires k < |q| && NoDuplicates(q)
    ensures Remove(q, q[k]) == q[..k] + q[k + 1..]
  {
    if k > 0 {
      assert q[0] != q[k];
      RemoveAt(q[1..], k - 1);
      assert q[1..][..k - 1] == q[1..k] && q[1..][k..] == q[k + 1..];
      assert q[..k] == [q[0]] + q[1..k];
    }
  }

  /** Removal drops one process and keeps the order of the others. */
  lemma RemoveExact(q: seq<nat>, f: nat)
    requires NoDuplicates(q) && f in q
    ensures NoDuplicates(Remove(q, f)) && |Remove(q, f)| == |q| - 1
    ensures forall p: nat :: p in Remove(q, f) <==> p in q && p != f
  {
    var k: nat :| k < |q| && q[k] == f;
    RemoveAt(q, k);
    var r := Remove(q, f);
    forall p: nat ensures p in r <==> p in q && p != f {
      if p in q && p != f {
        var i :| 0 <= i < |q| && q[i] == p;
        assert r[if i < k then i else i - 1] == p;
      }
    }
  }

  // ---------------------------------------------------------------- acyclicity

  lemma FewerEdgesAcyclic(phase: seq<Phase>, phase': seq<Phase>)
    requires Acyclic(phase)
    requires forall a: nat, b: nat :: SendsTo(phase', a, b) ==> SendsTo(phase, a, b)
    ensures Acyclic(phase')
  {
    forall a: nat ensures !WaitsFor(phase', a, a) {
      if WaitsFor(phase', a, a) {
        var c :| TrailFromTo(phase', c, a, a);
        forall j | 0 <= j < |c| - 1 ensures SendsTo(phase, c[j], c[j + 1]) {
          assert SendsTo(phase', c[j], c[j + 1]);
        }
        assert TrailFromTo(phase, c, a, a);
        assert WaitsFor(phase, a, a);
      }
    }
  }

  lemma NoSendersAcyclic(phase: seq<Phase>)
    requires forall p | 0 <= p < |phase| :: !phase[p].Sending?
    ensures Acyclic(phase)
  {
    forall a: nat, c: seq<nat> ensures !TrailFromTo(phase, c, a, a) {
      if |c| >= 2 { assert !SendsTo(phase, c[0], c[1]); }
    }
  }

  /** A new edge src -> dest leaves every trail that does not pass through src as it was. */
  lemma {:induction false} TrailBeforeSrc(phase: seq<Phase>, src: nat, dest: nat, c: seq<nat>) returns (k: nat)
    requires src < |phase| && Trail(phase[src := Sending(dest)], c) && c[|c| - 1] == src
    ensures k < |c| && c[k] == src && Trail(phase, c[..k + 1])
    ensures forall i | 0 <= i < k :: c[i] != src
  {
    if c[0] == src {
      k := 0;
    } else {
      assert |c| > 1;
      var k' := TrailBeforeSrc(phase, src, dest, c[1..]);
      k := k' + 1;
      forall j | 0 <= j < k ensures SendsTo(phase, c[j], c[j + 1]) {
        assert SendsTo(phase[src := Sending(dest)], c[j], c[j + 1]);
        assert j > 0 ==> c[j] == c[1..][j - 1];
      }
      assert c[..k + 1][|c[..k + 1]| - 1] == src;
    }
  }

  lemma TrailJoin(phase: seq<Phase>, c: seq<nat>, d: seq<nat>)
    requires Trail(phase, c) && Trail(phase, d) && c[|c| - 1] == d[0]
    ensures Trail(phase, c + d[1..])
    ensures (c + d[1..])[0] == c[0] && (c + d[1..])[|c + d[1..]| - 1] == d[|d| - 1]
  {
    var e := c + d[1..];
    forall j | 0 <= j < |e| - 1 ensures SendsTo(phase, e[j], e[j + 1]) {
      if j >= |c| - 1 { assert e[j] == d[j - (|c| - 1)] && e[j + 1] == d[j + 1 - (|c| - 1)]; }
    }
  }

  /** What `deadlock` decides: blocking src on dest closes a cycle iff dest already waits for src. */
  lemma DeadlockExact(phase: seq<Phase>, src: nat, dest: nat)
    requires src < |phase| && dest < |phase| && src != dest
    requires Acyclic(phase) && phase[src] == Running
    ensures Acyclic(phase[src := Sending(dest)]) <==> !WaitsFor(phase, dest, src)
  {
    var phase' := phase[src := Sending(dest)];
    if WaitsFor(phase, dest, src) {
      var c :| TrailFromTo(phase, c, dest, src);
      forall j | 0 <= j < |c| - 1 ensures SendsTo(phase', c[j], c[j + 1]) {
        assert SendsTo(phase, c[j], c[j + 1]);
      }
      assert SendsTo(phase', src, dest);
      assert TrailFromTo(phase', [src] + c, src, src) by {
        var e := [src] + c;
        forall j | 0 <= j < |e| - 1 ensures SendsTo(phase', e[j], e[j + 1]) {
          if j > 0 { assert e[j] == c[j - 1] && e[j + 1] == c[j]; }
        }
      }
      assert WaitsFor(phase', src, src);
    } else {
      forall a: nat ensures !WaitsFor(phase', a, a) {
        if WaitsFor(phase', a, a) {
          var c := NewCycleMeetsSrc(phase, src, dest, a);
          assert WaitsFor(phase, dest, src);
        }
      }
    }
  }

  lemma NewCycleMeetsSrc(phase: seq<Phase>, src: nat, dest: nat, a: nat) returns (found: seq<nat>)
    requires src < |phase| && dest < |phase| && src != dest
    requires Acyclic(phase) && phase[src] == Running
    requires WaitsFor(phase[src := Sending(dest)], a, a)
    ensures TrailFromTo(phase, found, dest, src)
  {
    var phase' := phase[src := Sending(dest)];
    var c :| TrailFromTo(phase', c, a, a);
    assert src in c by {
      if src !in c {
        forall j | 0 <= j < |c| - 1 ensures SendsTo(phase, c[j], c[j + 1]) {
          assert SendsTo(phase', c[j], c[j + 1]);
        }
        assert TrailFromTo(phase, c, a, a);
        assert WaitsFor(phase, a, a);
      }
    }
    // go round the cycle once, from the successor of src back to src
    var i :| 0 <= i < |c| && c[i] == src;
    var tail := c[i..];
    var head := c[..i + 1];
    assert head[|head| - 1] == src;
    var round: seq<nat>;
    if i == |c| - 1 {
      assert c[0] == src;
      round := c;
    } else {
      TrailJoin(phase', tail, head);
      round := tail + head[1..];
    }
    assert Trail(phase', round) && round[0] == src && round[|round| - 1] == src && |round| >= 2;
    assert SendsTo(phase', round[0], round[1]);
    var rest: seq<nat> := round[1..];
    assert Trail(phase', rest) by {
      forall j | 0 <= j < |rest| - 1 ensures SendsTo(phase', rest[j], rest[j + 1]) {
        assert SendsTo(phase', round[j + 1], round[j + 2]);
      }
    }
    var k := TrailBeforeSrc(phase, src, dest, rest);
    found := rest[..k + 1];
    assert rest[0] == dest;
  }

  // ---------------------------------------------------------------- every step keeps the invariant

  lemma SendKeepsInv(s: State, src: nat, dest: nat, m: Message)
    requires Inv(s) && src < s.Size() && dest < s.Size() && src != dest
    requires s.phase[src] == Running && !WaitsFor(s.phase, dest, src)
    ensures Inv(SendStep(s, src, dest, m))
  {
    var s' := SendStep(s, src, dest, m);
    if Accepts(s.phase[dest], src) {
      forall a: nat, b: nat ensures SendsTo(s'.phase, a, b) <==> SendsTo(s.phase, a, b) {}
      FewerEdgesAcyclic(s.phase, s'.phase);
    } else {
      DeadlockExact(s.phase, src, dest);
      forall a: nat, b: nat ensures SendsTo(s'.phase, a, b) <==> SendsTo(s.phase, a, b) || (a == src && b == dest) {}
      var q, q' := s.queue[dest], s'.queue[dest];
      assert src !in q;
      forall p: nat ensures p in q' <==> SendsTo(s'.phase, p, dest) {}
    }
  }

  lemma TakeKeepsInv(s: State, p: nat, f: nat)
    requires Inv(s) && p < s.Size() && f < s.Size()
    requires s.phase[p] == Running && s.phase[f] == Sending(p)
    ensures Inv(Take(s, p, f))
  {
    var s' := Take(s, p, f);
    assert SendsTo(s.phase, f, p);
    RemoveExact(s.queue[p], f);
    forall a: nat, b: nat ensures SendsTo(s'.phase, a, b) <==> SendsTo(s.phase, a, b) && a != f {}
    FewerEdgesAcyclic(s.phase, s'.phase);
  }

  lemma ChosenIsSender(s: State, p: nat, from: int)
    requires Inv(s) && p < s.Size()
    ensures Chosen(s, p, from) >= 0 ==> SendsTo(s.phase, Chosen(s, p, from), p)
  {
    if from == ANY && s.queue[p] != [] {
      assert s.queue[p][0] in s.queue[p];
    }
  }

  lemma ReceiveKeepsInv(s: State, p: nat, from: int, m: Message)
    requires Inv(s) && p < s.Size() && s.phase[p] == Running && ValidSource(s.Size(), p, from)
    ensures Inv(ReceiveStep(s, p, from, m))
  {
    ChosenIsSender(s, p, from);
    var s' := ReceiveStep(s, p, from, m);
    if IntReady(s, p, from) {
      assert s'.phase == s.phase && s'.queue == s.queue;
    } else {
      var s0 := s.(buf := s.buf[p := m.(source := p)]);
      assert Inv(s0);
      if Chosen(s, p, from) >= 0 {
        TakeKeepsInv(s0, p, Chosen(s, p, from));
      } else {
        forall a: nat, b: nat ensures SendsTo(s'.phase, a, b) <==> SendsTo(s.phase, a, b) {}
        FewerEdgesAcyclic(s.phase, s'.phase);
      }
    }
  }

  lemma InformKeepsInv(s: State, p: nat)
    requires Inv(s) && p < s.Size()
    ensures Inv(InformStep(s, p))
  {
    var s' := InformStep(s, p);
    forall a: nat, b: nat ensures SendsTo(s'.phase, a, b) <==> SendsTo(s.phase, a, b) {}
    FewerEdgesAcyclic(s.phase, s'.phase);
  }

  // ---------------------------------------------------------------- trails are short

  lemma {:induction false} Pigeonhole(c: seq<nat>, n: nat)
    requires NoDuplicates(c) && forall p | p in c :: p < n
    ensures |c| <= n
    decreases n
  {
    if c != [] {
      assert c[0] in c;
      if n - 1 in c {
        RemoveExact(c, n - 1);
        Pigeonhole(Remove(c, n - 1), n - 1);
      } else {
        Pigeonhole(c, n - 1);
      }
    }
  }

  /** Following sendto edges never meets a process twice, so the walk of `deadlock` is finite. */
  lemma TrailBound(phase: seq<Phase>, c: seq<nat>)
    requires Acyclic(phase) && Trail(phase, c)
    requires forall p | p in c :: p < |phase|
    ensures NoDuplicates(c) && |c| <= |phase|
  {
    forall i, j | 0 <= i < j < |c| ensures c[i] != c[j] {
      if c[i] == c[j] {
        var d := c[i..j + 1];
        forall k | 0 <= k < |d| - 1 ensures SendsTo(phase, d[k], d[k + 1]) {
          assert SendsTo(phase, c[i + k], c[i + k + 1]);
        }
        assert TrailFromTo(phase, d, c[i], c[i]);
        assert WaitsFor(phase, c[i], c[i]);
      }
    }
    Pigeonhole(c, |phase|);
  }

  // ---------------------------------------------------------------- the one trail out of a process

  lemma {:induction false} SameTrail(phase: seq<Phase>, c: seq<nat>, d: seq<nat>, i: nat)
    requires Trail(phase, c) && Trail(phase, d) && c[0] == d[0] && i < |c| && i < |d|
    ensures c[i] == d[i]
  {
    if i > 0 {
      SameTrail(phase, c, d, i - 1);
      assert SendsTo(phase, c[i - 1], c[i - 1 + 1]) && SendsTo(phase, d[i - 1], d[i - 1 + 1]);
    }
  }

  /** A trail that ends at a process that is not sending is all there is to follow. */
  lemma TrailEnd(phase: seq<Phase>, c: seq<nat>, b: nat)
    requires Trail(phase, c) && c[|c| - 1] < |phase| && !phase[c[|c| - 1]].Sending?
    requires forall j | 0 < j < |c| :: c[j] != b
    ensures !WaitsFor(phase, c[0], b)
  {
    forall d: seq<nat> ensures !TrailFromTo(phase, d, c[0], b) {
      var e := if |d| <= |c| then d else d[..|c|];
      assert Trail(phase, d) ==> |e| > 0 && Trail(phase, e);
      if |e| > 0 && Trail(phase, e) && e[0] == c[0] {
        SameTrail(phase, c, e, |e| - 1);
        if |d| > |c| { assert !SendsTo(phase, d[|c| - 1], d[|c| - 1 + 1]); }
      }
    }
  }
}
