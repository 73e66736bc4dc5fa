/**
 The process table: the fields of each slot, the intrusive linked queues, and what the link
 surgery of msg_send and msg_receive does to them.
 */
module ProcTable {
  import opened Base
  import opened Ipc

  /** The bits of `flags` that the kernel's message passing and scheduling look at. */
  datatype Flag = SENDING | RECEIVING | FREE_SLOT

  /** `msg` says whether the message pointer is set. */
  datatype Process = Process(flags: set<Flag>, msg: bool, recvfrom: int, sendto: int, hasIntMsg: bool,
                             sendingQueue: int, nextSending: int)

  function PhaseOf(p: Process): Phase {
    if SENDING in p.flags then Sending(p.sendto)
    else if RECEIVING in p.flags then Receiving(p.recvfrom)
    else if p.flags == {} then Running
    else Unused
  }

  function Phases(t: seq<Process>): seq<Phase> {
    seq(|t|, i requires 0 <= i < |t| => PhaseOf(t[i]))
  }

  function Pendings(t: seq<Process>): seq<bool> {
    seq(|t|, i requires 0 <= i < |t| => t[i].hasIntMsg)
  }

  function Runnables(t: seq<Process>): seq<bool> {
    seq(|t|, i requires 0 <= i < |t| => t[i].flags == {})
  }

  /** Whether a process is runnable shows in its phase. */
  lemma SameRunnables(t: seq<Process>, t': seq<Process>)
    requires Phases(t) == Phases(t')
    ensures Runnables(t) == Runnables(t')
  {
    assert |Phases(t)| == |t| && |Phases(t')| == |t'|;
    forall i | 0 <= i < |t| ensures Runnables(t)[i] == Runnables(t')[i] {
      assert Phases(t)[i] == PhaseOf(t[i]) && Phases(t')[i] == PhaseOf(t'[i]);
    }
  }

  /** flags, msg, recvfrom, sendto and next_sending agree, as the assertions of proc.c demand. */
  predicate Consistent(p: Process) {
    if p.flags == {FREE_SLOT} then p.nextSending == NIL
    else
      && (p.flags == {} || p.flags == {SENDING} || p.flags == {RECEIVING})
      && (p.msg <==> p.flags != {})
      && (p.recvfrom != NO_TASK <==> RECEIVING in p.flags)
      && (p.sendto != NO_TASK <==> SENDING in p.flags)
      && (SENDING !in p.flags ==> p.nextSending == NIL)
  }

  /** Following next_sending from head passes through exactly q and ends. */
  ghost predicate Linked(t: seq<Process>, head: int, q: seq<nat>) {
    && head == (if q == [] then NIL else q[0])
    && forall i | 0 <= i < |q| :: LinkAt(t, q, i)
  }

  ghost predicate LinkAt(t: seq<Process>, q: seq<nat>, i: nat)
    requires i < |q|
  {
    q[i] < |t| && t[q[i]].nextSending == (if i + 1 < |q| then q[i + 1] else NIL)
  }

  ghost predicate TableOk(t: seq<Process>, queues: seq<seq<nat>>) {
    && |queues| == |t|
    && (forall i | 0 <= i < |t| :: Consistent(t[i]))
    && (forall d | 0 <= d < |t| :: Linked(t, t[d].sendingQueue, queues[d]))
  }

  /** Each queue holds exactly the senders to its owner, once each. */
  ghost predicate QueuesMatch(t: seq<Process>, queues: seq<seq<nat>>) {
    && |queues| == |t|
    && forall d | 0 <= d < |t| ::
         NoDuplicates(queues[d]) && forall p: nat :: p in queues[d] <==> p < |t| && PhaseOf(t[p]) == Sending(d)
  }

  lemma MatchFromInv(t: seq<Process>, s: State)
    requires s.phase == Phases(t) && Inv(s)
    ensures QueuesMatch(t, s.queue)
  {
    forall d, p: nat | 0 <= d < |t| ensures p in s.queue[d] <==> p < |t| && PhaseOf(t[p]) == Sending(d) {
      assert p in s.queue[d] <==> SendsTo(s.phase, p, d);
    }
  }

  // ---------------------------------------------------------------- linked queues

  lemma LinkedFrame(t: seq<Process>, t': seq<Process>, head: int, q: seq<nat>)
    requires Linked(t, head, q) && |t'| == |t|
    requires forall p | p in q && p < |t| :: t'[p].nextSending == t[p].nextSending
    ensures Linked(t', head, q)
  {
    forall i | 0 <= i < |q| ensures LinkAt(t', q, i) {
      assert LinkAt(t, q, i) && q[i] in q;
    }
  }

  lemma LinkedAppend(t: seq<Process>, t': seq<Process>, head: int, q: seq<nat>, s: nat)
    requires Linked(t, head, q) && |t'| == |t| && s < |t| && t'[s].nextSending == NIL
    requires q != [] ==> q[|q| - 1] < |t| && t'[q[|q| - 1]].nextSending == s
    requires forall i | 0 <= i < |q| - 1 && q[i] < |t| :: t'[q[i]].nextSending == t[q[i]].nextSending
    ensures Linked(t', if q == [] then s else head, q + [s])
  {
    forall i | 0 <= i < |q| + 1 ensures LinkAt(t', q + [s], i) {
      if i < |q| { assert LinkAt(t, q, i); }
    }
  }

  lemma LinkedCut(t: seq<Process>, t': seq<Process>, head: int, q: seq<nat>, k: nat)
    requires Linked(t, head, q) && |t'| == |t| && k < |q| && q[k] < |t|
    requires k > 0 ==> q[k - 1] < |t| && t'[q[k - 1]].nextSending == t[q[k]].nextSending
    requires forall i | 0 <= i < |q| && i != k && i != k - 1 && q[i] < |t| ::
               t'[q[i]].nextSending == t[q[i]].nextSending
    ensures Linked(t', if k == 0 then t[q[0]].nextSending else head, q[..k] + q[k + 1..])
  {
    var q' := q[..k] + q[k + 1..];
    assert LinkAt(t, q, k);
    forall i | 0 <= i < |q'| ensures LinkAt(t', q', i) {
      var i' := if i >= k then i + 1 else i;
      assert q'[i] == q[i'] && LinkAt(t, q, i');
    }
  }

  /** A change to one slot that leaves its links alone leaves the table in shape. */
  lemma TouchOk(t: seq<Process>, queues: seq<seq<nat>>, i: nat, p: Process)
    requires TableOk(t, queues) && i < |t| && Consistent(p)
    requires p.sendingQueue == t[i].sendingQueue && p.nextSending == t[i].nextSending
    ensures TableOk(t[i := p], queues)
    ensures Phases(t[i := p]) == Phases(t)[i := PhaseOf(p)]
    ensures Pendings(t[i := p]) == Pendings(t)[i := p.hasIntMsg]
  {
    forall d | 0 <= d < |t| ensures Linked(t[i := p], t[i := p][d].sendingQueue, queues[d]) {
      LinkedFrame(t, t[i := p], t[d].sendingQueue, queues[d]);
    }
  }

  /** Changing the links of x's senders only leaves the other queues in shape. */
  lemma OthersLinked(t: seq<Process>, t': seq<Process>, queues: seq<seq<nat>>, x: nat)
    requires TableOk(t, queues) && QueuesMatch(t, queues) && |t'| == |t|
    requires forall p | 0 <= p < |t| && PhaseOf(t[p]).Sending? && PhaseOf(t[p]) != Sending(x) ::
               t'[p].nextSending == t[p].nextSending
    requires forall d | 0 <= d < |t| && d != x :: t'[d].sendingQueue == t[d].sendingQueue
    ensures forall d | 0 <= d < |t| && d != x :: Linked(t', t'[d].sendingQueue, queues[d])
  {
    forall d | 0 <= d < |t| && d != x ensures Linked(t', t'[d].sendingQueue, queues[d]) {
      LinkedFrame(t, t', t[d].sendingQueue, queues[d]);
    }
  }

  // ---------------------------------------------------------------- blocking a sender

  function AsSender(p: Process, dest: nat): Process {
    p.(flags := {SENDING}, sendto := dest, msg := true, nextSending := NIL)
  }

  /** The table after `sender` is appended to dest's queue. */
  function Enqueued(t: seq<Process>, queues: seq<seq<nat>>, sender: nat, dest: nat): seq<Process>
    requires |queues| == |t| && sender < |t| && dest < |t|
    requires queues[dest] != [] ==> queues[dest][|queues[dest]| - 1] < |t|
  {
    var t' := t[sender := AsSender(t[sender], dest)];
    if queues[dest] == [] then t'[dest := t'[dest].(sendingQueue := sender)]
    else
      var last := queues[dest][|queues[dest]| - 1];
      t'[last := t'[last].(nextSending := sender)]
  }

  lemma EnqueueView(t: seq<Process>, queues: seq<seq<nat>>, sender: nat, dest: nat)
    requires |queues| == |t| && forall i | 0 <= i < |t| :: Consistent(t[i])
    requires sender < |t| && dest < |t| && dest != NO_TASK && t[sender].flags == {}
    requires queues[dest] != [] ==>
               queues[dest][|queues[dest]| - 1] < |t| && SENDING in t[queues[dest][|queues[dest]| - 1]].flags
    ensures var t' := Enqueued(t, queues, sender, dest);
            && (forall i | 0 <= i < |t| :: Consistent(t'[i]))
            && Phases(t') == Phases(t)[sender := Sending(dest)] && Pendings(t') == Pendings(t)
  {
  }

  lemma EnqueueOk(t: seq<Process>, queues: seq<seq<nat>>, sender: nat, dest: nat)
    requires TableOk(t, queues) && QueuesMatch(t, queues)
    requires sender < |t| && dest < |t| && sender != dest && dest != NO_TASK && t[sender].flags == {}
    ensures sender !in queues[dest]
    ensures queues[dest] != [] ==>
              queues[dest][|queues[dest]| - 1] < |t| && SENDING in t[queues[dest][|queues[dest]| - 1]].flags
    ensures TableOk(Enqueued(t, queues, sender, dest), queues[dest := queues[dest] + [sender]])
  {
    var q := queues[dest];
    assert sender !in q;
    if q != [] {
      assert q[|q| - 1] in q;
    }
    var t' := Enqueued(t, queues, sender, dest);
    EnqueueView(t, queues, sender, dest);
    LinkedAppend(t, t', t[dest].sendingQueue, q, sender);
    OthersEnqueued(t, queues, sender, dest);
  }

  lemma OthersEnqueued(t: seq<Process>, queues: seq<seq<nat>>, sender: nat, dest: nat)
    requires TableOk(t, queues) && QueuesMatch(t, queues)
    requires sender < |t| && dest < |t| && t[sender].flags == {}
    requires queues[dest] != [] ==> queues[dest][|queues[dest]| - 1] < |t|
    ensures var t' := Enqueued(t, queues, sender, dest);
            forall d | 0 <= d < |t| && d != dest :: Linked(t', t'[d].sendingQueue, queues[d])
  {
    var t' := Enqueued(t, queues, sender, dest);
    forall p | 0 <= p < |t| && PhaseOf(t[p]).Sending? && PhaseOf(t[p]) != Sending(dest)
      ensures t'[p].nextSending == t[p].nextSending
    {
      assert p != sender && p !in queues[dest];
    }
    OthersLinked(t, t', queues, dest);
  }

  // ---------------------------------------------------------------- releasing a sender

  function Released(p: Process): Process {
    p.(flags := p.flags - {SENDING}, sendto := NO_TASK, msg := false)
  }

  /** The table after the k-th process of p's queue is taken off the queue. */
  function Unlinked(t: seq<Process>, queues: seq<seq<nat>>, p: nat, k: nat): seq<Process>
    requires |queues| == |t| && p < |t| && k < |queues[p]| && queues[p][k] < |t|
    requires k > 0 ==> queues[p][k - 1] < |t|
  {
    var f := queues[p][k];
    var t' := if k == 0 then t[p := t[p].(sendingQueue := t[f].nextSending)]
              else t[queues[p][k - 1] := t[queues[p][k - 1]].(nextSending := t[f].nextSending)];
    t'[f := t'[f].(nextSending := NIL)]
  }

  /** ... and released. */
  function Dequeued(t: seq<Process>, queues: seq<seq<nat>>, p: nat, k: nat): seq<Process>
    requires |queues| == |t| && p < |t| && k < |queues[p]| && queues[p][k] < |t|
    requires k > 0 ==> queues[p][k - 1] < |t|
  {
    var t' := Unlinked(t, queues, p, k);
    t'[queues[p][k] := Released(t'[queues[p][k]])]
  }

  lemma DequeueView(t: seq<Process>, queues: seq<seq<nat>>, p: nat, k: nat)
    requires |queues| == |t| && forall i | 0 <= i < |t| :: Consistent(t[i])
    requires p < |t| && t[p].flags == {} && k < |queues[p]| && queues[p][k] < |t| && t[queues[p][k]].flags == {SENDING}
    requires k > 0 ==>
               queues[p][k - 1] < |t| && queues[p][k - 1] != queues[p][k] && t[queues[p][k - 1]].flags == {SENDING}
    ensures var t' := Dequeued(t, queues, p, k);
            && (forall i | 0 <= i < |t| :: Consistent(t'[i]))
            && Phases(t') == Phases(t)[queues[p][k] := Running] && Pendings(t') == Pendings(t)
  {
  }

  lemma DequeueLinks(t: seq<Process>, queues: seq<seq<nat>>, p: nat, k: nat)
    requires |queues| == |t| && p < |t| && k < |queues[p]| && queues[p][k] < |t|
    requires k > 0 ==> queues[p][k - 1] < |t| && queues[p][k - 1] != queues[p][k]
    ensures var t', f := Dequeued(t, queues, p, k), queues[p][k];
            && (forall i | 0 <= i < |t| && i != f && (k == 0 || i != queues[p][k - 1]) ::
                  t'[i].nextSending == t[i].nextSending)
            && (k > 0 ==> t'[queues[p][k - 1]].nextSending == t[f].nextSending)
            && (forall i | 0 <= i < |t| && i != p :: t'[i].sendingQueue == t[i].sendingQueue)
            && t'[p].sendingQueue == (if k == 0 then t[f].nextSending else t[p].sendingQueue)
  {
  }

  lemma DequeueOk(t: seq<Process>, queues: seq<seq<nat>>, p: nat, k: nat)
    requires TableOk(t, queues) && QueuesMatch(t, queues)
    requires p < |t| && t[p].flags == {} && k < |queues[p]|
    ensures queues[p][k] < |t| && t[queues[p][k]].flags == {SENDING}
    ensures k > 0 ==>
              queues[p][k - 1] < |t| && queues[p][k - 1] != queues[p][k] && t[queues[p][k - 1]].flags == {SENDING}
    ensures queues[p][0] < |t|
    ensures TableOk(Dequeued(t, queues, p, k), queues[p := queues[p][..k] + queues[p][k + 1..]])
  {
    var q := queues[p];
    assert q[0] in q && q[k] in q && LinkAt(t, q, k);
    if k > 0 { assert q[k - 1] in q; }
    DequeueView(t, queues, p, k);
    DequeueLinks(t, queues, p, k);
    var t' := Dequeued(t, queues, p, k);
    LinkedCut(t, t', t[p].sendingQueue, q, k);
    OthersLinked(t, t', queues, p);
  }
}
