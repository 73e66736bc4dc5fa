/**
 The kernel proper: `schedule`, `clock_handler`, `deadlock`, `msg_send`, `msg_receive`, `inform_init`
 and `sys_sendrec` over the process table.  Each is proved to take exactly the step of modules Ipc and Sched.
 */
module Kernel {
  import opened Base
  import opened Ipc
  import opened ProcTable
  import IpcRuns
  import opened Machine
  import Sched

  class Kernel {
    const table: array<Process>
    /** The MESSAGE in each process's own memory that its current system call points to. */
    const userMsg: array<Message>
    const procTicks: array<int>
    const priority: array<int>
    /** p_proc_ready */
    var ready: nat
    /** the clock interrupts since start, modulo MAX_TICKS */
    var ticks: int
    var keyPressed: bool
    /** For each process, the processes on its sending queue from head to tail. */
    ghost var queues: seq<seq<nat>>

    ghost function Core(): State
      reads this, table, userMsg
    {
      State(Phases(table[..]), userMsg[..], queues, Pendings(table[..]))
    }

    ghost function Clock(): Sched.Clock
      reads this, table, procTicks, priority
    {
      Sched.Clock(Runnables(table[..]), procTicks[..], priority[..], ready)
    }

    ghost predicate Sizes()
      reads this
    {
      && table.Length == userMsg.Length == procTicks.Length == priority.Length <= MAX_TABLE
      && procTicks != priority && ready < table.Length
    }

    ghost predicate Valid()
      reads this, table, userMsg, procTicks, priority
    {
      Sizes() && TableOk(table[..], queues) && Inv(Core())
    }

    /** Somebody other than p can take the processor; TestA, TestB and TestC always can. */
    ghost predicate OthersCanRun(p: nat)
      reads this, table, procTicks, priority
      requires Sizes()
    {
      exists i :: 0 <= i < table.Length && i != p && table[i].flags == {} && (procTicks[i] > 0 || priority[i] > 0)
    }

    /** The table as kernel_main leaves it: `free` marks the slots beyond the native processes. */
    constructor (free: seq<bool>, prio: seq<int>)
      requires 0 < |free| == |prio| <= MAX_TABLE
      ensures Valid() && fresh(table) && fresh(userMsg) && fresh(procTicks) && fresh(priority)
      ensures Core().phase == seq(|free|, i requires 0 <= i < |free| => if free[i] then Unused else Running)
      ensures (forall q | q in Core().queue :: q == []) && (forall b | b in Core().pending :: !b)
      ensures priority[..] == prio && procTicks[..] == seq(|free|, _ => 0) && ready == 0 && ticks == 0 && !keyPressed
    {
      var n := |free|;
      table := new Process[n](i requires 0 <= i < n =>
        if free[i] then Process({FREE_SLOT}, false, 0, 0, false, NIL, NIL)
        else Process({}, false, NO_TASK, NO_TASK, false, NIL, NIL));
      userMsg := new Message[n](_ => Message(0, 0, ZERO_BODY));
      procTicks := new int[n](_ => 0);
      priority := new int[n](i requires 0 <= i < n => prio[i]);
      ready, ticks, keyPressed := 0, 0, false;
      queues := seq(n, _ => []);
      new;
      NoSendersAcyclic(Core().phase);
    }

    // -------------------------------------------------------------- scheduling

    method Schedule()
      requires Sizes() && Sched.CanSchedule(Clock())
      modifies this`ready, procTicks
      ensures Sizes() && Clock() == Sched.Scheduled(old(Clock()))
    {
      ghost var was := Clock();
      ghost var refilled := false;
      Sched.ScheduleEnds(was);
      var greatest := 0;
      while greatest == 0
        invariant Sizes() && Clock().runnable == was.runnable && Clock().priority == was.priority
        invariant greatest == 0 ==>
                    if refilled then procTicks[..] == was.priority
                        && Sched.Best(was.runnable, was.ticks, |was.ticks|) < 0
                    else procTicks[..] == was.ticks
        invariant greatest != 0 ==> Clock() == Sched.Scheduled(was)
        decreases greatest == 0, !refilled
      {
        greatest := PickMost();
        if greatest == 0 {
          Refill();
          refilled := true;
        }
      }
    }

    /** The scan: the runnable process with the most ticks becomes the ready one, the first of several. */
    method PickMost() returns (greatest: int)
      requires Sizes()
      modifies this`ready
      ensures Sizes()
      ensures var b := Sched.Best(Clock().runnable, procTicks[..], table.Length);
              if b < 0 then greatest == 0 && ready == old(ready) else greatest == procTicks[b] > 0 && ready == b
    {
      greatest := 0;
      for p := 0 to table.Length
        invariant Sizes()
        invariant var b := Sched.Best(Clock().runnable, procTicks[..], p);
                  if b < 0 then greatest == 0 && ready == old(ready) else greatest == procTicks[b] > 0 && ready == b
      {
        if table[p].flags == {} {
          if procTicks[p] > greatest {
            greatest := procTicks[p];
            ready := p;
          }
        }
      }
    }

    /** Nobody has ticks left: everybody gets as many as its priority. */
    method Refill()
      requires Sizes()
      modifies procTicks
      ensures procTicks[..] == priority[..]
    {
      for p := 0 to table.Length
        invariant forall i | 0 <= i < p :: procTicks[i] == priority[i]
      {
        procTicks[p] := priority[p];
      }
    }

    // -------------------------------------------------------------- the deadlock check

    /** Walks the sendto chain from dest; `printed` is the chain it prints when it finds src. */
    method Deadlock(src: nat, dest: nat) returns (r: bool, printed: seq<nat>)
      requires Valid() && src < table.Length && dest < table.Length && src != dest
      ensures r <==> WaitsFor(Core().phase, dest, src)
      ensures r ==> TrailFromTo(Core().phase, printed, dest, src)
    {
      ghost var phase := Core().phase;
      ghost var c: seq<nat> := [dest];
      var p := dest;
      TrailBound(phase, c);
      while SENDING in table[p].flags
        invariant p < table.Length && Trail(phase, c) && c[0] == dest && c[|c| - 1] == p
        invariant (forall x | x in c :: x < |phase|) && |c| <= |phase|
        invariant forall j | 0 < j < |c| :: c[j] != src
        decreases |phase| - |c|
      {
        assert PhaseOf(table[p]) == phase[p];
        ghost var c' := c + [phase[p].dest];
        assert TrailFromTo(phase, c', dest, phase[p].dest) by {
          forall j | 0 <= j < |c'| - 1 ensures SendsTo(phase, c'[j], c'[j + 1]) {
            if j < |c| - 1 { assert SendsTo(phase, c[j], c[j + 1]); }
          }
        }
        if table[p].sendto == src {
          printed := PrintChain(src, dest, c');
          return true, printed;
        }
        TrailBound(phase, c');
        p := table[p].sendto;
        c := c';
      }
      assert PhaseOf(table[p]) == phase[p];
      TrailEnd(phase, c, src);
      return false, [];
    }

    /** The second walk of `deadlock`, which asserts that every process on the chain has a message. */
    method PrintChain(src: nat, dest: nat, ghost c: seq<nat>) returns (printed: seq<nat>)
      requires Valid() && src < table.Length && dest < table.Length
      requires TrailFromTo(Core().phase, c, dest, src) && src !in c[1..|c| - 1]
      ensures printed == c
    {
      var p := dest;
      printed := [dest];
      while |printed| == 1 || p != src
        invariant 1 <= |printed| <= |c| && printed == c[..|printed|] && p == printed[|printed| - 1] && p < table.Length
        invariant |printed| == |c| ==> p == src
        decreases |c| - |printed|
      {
        ghost var j := |printed| - 1;
        assert SendsTo(Core().phase, c[j], c[j + 1]);
        assert PhaseOf(table[p]) == Core().phase[p];
        assert table[p].msg;
        p := table[p].sendto;
        printed := printed + [p];
        if |printed| < |c| { assert p in c[1..|c| - 1]; }
      }
    }

    // -------------------------------------------------------------- sending

    /** `schedule` after a process has blocked: the others keep the processor busy. */
    method Block(p: nat, ghost before: Sched.Clock)
      requires Valid() && p < table.Length && table[p].flags != {}
      requires OthersCanRun(p)
      requires Sched.Sized(before) && before.(runnable := Clock().runnable) == Clock()
      modifies this`ready, procTicks
      ensures Valid() && Sched.Resumed(before, Clock(), p)
      ensures Core() == old(Core())
    {
      assert Sched.CanSchedule(Clock()) by {
        var i :| 0 <= i < table.Length && i != p && table[i].flags == {} && (procTicks[i] > 0 || priority[i] > 0);
        assert Clock().runnable[i];
      }
      Schedule();
    }

    method MsgSend(sender: nat, dest: nat) returns (ok: bool)
      requires Valid() && sender < table.Length && dest < table.Length && sender != dest
      requires table[sender].flags == {} && userMsg[sender].source == sender && OthersCanRun(sender)
      modifies this`ready, this`queues, table, userMsg, procTicks
      ensures ok <==> !old(WaitsFor(Core().phase, dest, sender))
      ensures !ok ==> Core() == old(Core()) && Clock() == old(Clock())
      ensures ok ==> Valid() && Core() == SendStep(old(Core()), sender, dest, old(userMsg[sender]))
      ensures ok ==> Sched.Resumed(old(Clock()), Clock(), sender)
    {
      var dead, printed := Deadlock(sender, dest);
      if dead {
        return false;
      }
      SendKeepsInv(Core(), sender, dest, userMsg[sender]);
      HandOver(sender, dest);
      return true;
    }

    /** msg_send after the deadlock check. */
    method HandOver(sender: nat, dest: nat)
      requires Valid() && sender < table.Length && dest < table.Length && sender != dest
      requires table[sender].flags == {} && userMsg[sender].source == sender && OthersCanRun(sender)
      requires Inv(SendStep(Core(), sender, dest, userMsg[sender]))
      modifies this`ready, this`queues, table, userMsg, procTicks
      ensures Valid() && Core() == SendStep(old(Core()), sender, dest, old(userMsg[sender]))
      ensures Sched.Resumed(old(Clock()), Clock(), sender)
    {
      if RECEIVING in table[dest].flags && (table[dest].recvfrom == sender || table[dest].recvfrom == ANY) {
        Deliver(sender, dest);
      } else {
        AwaitReceiver(sender, dest);
      }
    }

    /** Nobody takes the message: the sender waits in the queue. */
    method AwaitReceiver(sender: nat, dest: nat)
      requires Valid() && sender < table.Length && dest < table.Length && sender != dest
      requires table[sender].flags == {} && userMsg[sender].source == sender && OthersCanRun(sender)
      requires !Accepts(PhaseOf(table[dest]), sender) && Inv(SendStep(Core(), sender, dest, userMsg[sender]))
      modifies this`ready, this`queues, table, procTicks
      ensures Valid() && Core() == SendStep(old(Core()), sender, dest, old(userMsg[sender]))
      ensures Sched.Resumed(old(Clock()), Clock(), sender)
    {
      ghost var before := Clock();
      AppendSender(sender, dest);
      Block(sender, before);
    }

    /** The receiver is waiting: it gets the message and runs again. */
    method Deliver(sender: nat, dest: nat)
      requires Valid() && sender < table.Length && dest < table.Length && sender != dest
      requires table[sender].flags == {} && userMsg[sender].source == sender
      requires Accepts(PhaseOf(table[dest]), sender)
      requires Inv(SendStep(Core(), sender, dest, userMsg[sender]))
      modifies table, userMsg
      ensures Valid() && Core() == SendStep(old(Core()), sender, dest, old(userMsg[sender]))
      ensures table[sender].flags == {}
      ensures Clock() == old(Clock()).(runnable := Clock().runnable)
    {
      ghost var t := table[..];
      assert PhaseOf(table[dest]) == Core().phase[dest];
      assert table[dest].msg;
      userMsg[dest] := userMsg[sender];
      table[dest] := table[dest].(msg := false);
      table[dest] := table[dest].(flags := table[dest].flags - {RECEIVING});
      table[dest] := table[dest].(recvfrom := NO_TASK);
      assert table[dest].flags == {} && table[dest].sendto == NO_TASK;
      assert table[sender].sendto == NO_TASK && table[sender].recvfrom == NO_TASK && !table[sender].msg;
      TouchOk(t, queues, dest, table[dest]);
      assert table[..] == t[dest := table[dest]];
      assert Core() == SendStep(old(Core()), sender, dest, old(userMsg[sender]));
    }

    /** The last process on the linked queue that starts at `first`. */
    method Last(first: nat, ghost q: seq<nat>) returns (p: nat)
      requires q != [] && Linked(table[..], first, q)
      ensures p == q[|q| - 1] && p < table.Length
    {
      p := first;
      ghost var k := 0;
      assert LinkAt(table[..], q, 0);
      while table[p].nextSending != NIL
        invariant 0 <= k < |q| && p == q[k] && p < table.Length && LinkAt(table[..], q, k)
        decreases |q| - k
      {
        p := table[p].nextSending;
        k := k + 1;
        assert LinkAt(table[..], q, k);
      }
    }

    /** The receiver is not waiting: the sender goes to the end of its queue. */
    method AppendSender(sender: nat, dest: nat)
      requires Valid() && sender < table.Length && dest < table.Length && sender != dest
      requires table[sender].flags == {} && userMsg[sender].source == sender
      requires !Accepts(PhaseOf(table[dest]), sender)
      requires Inv(SendStep(Core(), sender, dest, userMsg[sender]))
      modifies table, this`queues
      ensures Valid() && Core() == SendStep(old(Core()), sender, dest, old(userMsg[sender]))
      ensures table[sender].flags == {SENDING}
      ensures forall i | 0 <= i < table.Length && i != sender :: table[i].flags == old(table[i].flags)
      ensures Clock() == old(Clock()).(runnable := Clock().runnable)
    {
      ghost var t := table[..];
      MatchFromInv(t, Core());
      EnqueueOk(t, queues, sender, dest);
      EnqueueView(t, queues, sender, dest);
      assert PhaseOf(table[dest]) == Core().phase[dest];
      LinkSender(sender, dest);
      queues := queues[dest := queues[dest] + [sender]];
      assert Core() == SendStep(old(Core()), sender, dest, old(userMsg[sender]));
    }

    method LinkSender(sender: nat, dest: nat)
      requires |queues| == table.Length && sender < table.Length && dest < table.Length && sender != dest
      requires Consistent(table[sender]) && table[sender].flags == {}
      requires Linked(table[..], table[dest].sendingQueue, queues[dest]) && sender !in queues[dest]
      requires queues[dest] != [] ==> queues[dest][|queues[dest]| - 1] < table.Length
      modifies table
      ensures table[..] == Enqueued(old(table[..]), queues, sender, dest)
      ensures table[sender].flags == {SENDING}
      ensures forall i | 0 <= i < table.Length && i != sender :: table[i].flags == old(table[i].flags)
    {
      ghost var t := table[..];
      table[sender] := table[sender].(flags := table[sender].flags + {SENDING});
      assert table[sender].flags == {SENDING};
      table[sender] := table[sender].(sendto := dest);
      table[sender] := table[sender].(msg := true);
      if table[dest].sendingQueue != NIL {
        LinkedFrame(t, table[..], table[dest].sendingQueue, queues[dest]);
        var p := Last(table[dest].sendingQueue, queues[dest]);
        table[p] := table[p].(nextSending := sender);
      } else {
        table[dest] := table[dest].(sendingQueue := sender);
      }
      table[sender] := table[sender].(nextSending := NIL);
      assert table[sender].flags == {SENDING} && table[sender].msg;
      assert table[sender].recvfrom == NO_TASK && table[sender].sendto == dest;
    }

    // -------------------------------------------------------------- receiving

    /** `src` is ANY, INTERRUPT or another process; false is the assertion at the end of the blocking branch, that no
        interrupt is pending. */
    method MsgReceive(p: nat, src: int) returns (ok: bool)
      requires Valid() && p < table.Length && ValidSource(table.Length, p, src)
      requires table[p].flags == {} && userMsg[p].source == p && OthersCanRun(p)
      modifies this`ready, this`queues, table, userMsg, procTicks
      ensures ok <==> !old(BlocksOnPending(Core(), p, src))
      ensures Valid() && Core() == ReceiveStep(old(Core()), p, src, old(userMsg[p]))
      ensures Sched.Resumed(old(Clock()), Clock(), p)
    {
      ReceiveKeepsInv(Core(), p, src, userMsg[p]);
      if table[p].hasIntMsg && (src == ANY || src == INTERRUPT) {
        TakeInterrupt(p, src);
        return true;
      }
      var from, prev, copyok, k := FindSender(p, src);
      if copyok {
        TakeMessage(p, src, from, prev, k);
        ok := true;
      } else {
        ok := BlockReceiver(p, src);
      }
    }

    /** Nothing fits: the receiver waits, and another process runs. */
    method BlockReceiver(p: nat, src: int) returns (ok: bool)
      requires Valid() && p < table.Length && ValidSource(table.Length, p, src)
      requires table[p].flags == {} && userMsg[p].source == p && OthersCanRun(p)
      requires Chosen(Core(), p, src) < 0 && !IntReady(Core(), p, src)
      requires Inv(ReceiveStep(Core(), p, src, userMsg[p]))
      modifies this`ready, table, procTicks
      ensures ok <==> !old(Core().pending[p])
      ensures Valid() && Core() == ReceiveStep(old(Core()), p, src, old(userMsg[p]))
      ensures Sched.Resumed(old(Clock()), Clock(), p)
    {
      ghost var before := Clock();
      AwaitMessage(p, src);
      Block(p, before);
      assert table[p].flags == {RECEIVING};
      assert table[p].msg && table[p].recvfrom != NO_TASK && table[p].sendto == NO_TASK;
      ok := !table[p].hasIntMsg;
    }

    /** An interrupt was pending and is asked for. */
    method TakeInterrupt(p: nat, src: int)
      requires Valid() && p < table.Length && table[p].flags == {}
      requires IntReady(Core(), p, src) && Inv(ReceiveStep(Core(), p, src, userMsg[p]))
      modifies table, userMsg
      ensures Valid() && Core() == ReceiveStep(old(Core()), p, src, old(userMsg[p]))
      ensures Clock() == old(Clock()) && table[p].flags == {}
    {
      ghost var t := table[..];
      userMsg[p] := Message(INTERRUPT, HARDWARE_INT, ZERO_BODY);
      table[p] := table[p].(hasIntMsg := false);
      TouchOk(t, queues, p, table[p]);
      assert table[..] == t[p := table[p]];
      assert Core() == ReceiveStep(old(Core()), p, src, old(userMsg[p]));
    }

    /** Looks for a blocked sender that fits `src`, and for its predecessor on the queue. */
    method FindSender(p: nat, src: int) returns (from: int, prev: int, copyok: bool, ghost k: nat)
      requires Valid() && p < table.Length && ValidSource(table.Length, p, src) && table[p].flags == {}
      ensures copyok <==> Chosen(Core(), p, src) >= 0
      ensures copyok ==> from == Chosen(Core(), p, src) && from in queues[p]
      ensures copyok ==> k < |queues[p]| && queues[p][k] == from && prev == (if k == 0 then NIL else queues[p][k - 1])
    {
      from, prev, copyok, k := NIL, NIL, false, 0;
      ghost var t, q := table[..], queues[p];
      assert Linked(t, t[p].sendingQueue, q);
      ChosenIsSender(Core(), p, src);
      if src == ANY {
        if table[p].sendingQueue != NIL {
          from := table[p].sendingQueue;
          copyok := true;
          assert from == q[0] && from in q && SendsTo(Core().phase, from, p);
        }
      } else if src != INTERRUPT {
        from := src;
        if SENDING in table[from].flags && table[from].sendto == p {
          copyok := true;
          assert SendsTo(Core().phase, from, p);
          assert from in q;
          prev, k := FindPrev(p, src);
        }
      }
    }

    /** The predecessor of src on p's queue. */
    method FindPrev(p: nat, src: nat) returns (prev: int, ghost k: nat)
      requires Valid() && p < table.Length && src in queues[p]
      ensures k < |queues[p]| && queues[p][k] == src && prev == (if k == 0 then NIL else queues[p][k - 1])
      ensures if prev == NIL then table[p].sendingQueue == src
              else 0 <= prev < table.Length && table[prev].nextSending == src
    {
      ghost var t, q := table[..], queues[p];
      assert Linked(t, t[p].sendingQueue, q);
      prev, k := NIL, 0;
      var x := table[p].sendingQueue;
      while x != NIL
        invariant 0 <= k < |q| && src in q[k..] && x == q[k] && prev == (if k == 0 then NIL else q[k - 1])
        invariant if prev == NIL then table[p].sendingQueue == x
                  else 0 <= prev < table.Length && table[prev].nextSending == x
        decreases |q| - k
      {
        assert LinkAt(t, q, k);
        if x == src {
          break;
        }
        prev := x;
        x := table[x].nextSending;
        k := k + 1;
      }
    }

    /** Takes `from` off p's queue. */
    method Unlink(p: nat, from: nat, prev: int, ghost k: nat)
      requires |queues| == table.Length && p < table.Length && from < table.Length
      requires Linked(table[..], table[p].sendingQueue, queues[p]) && NoDuplicates(queues[p])
      requires k < |queues[p]| && queues[p][k] == from && prev == (if k == 0 then NIL else queues[p][k - 1])
      requires k > 0 ==> prev < table.Length
      modifies table
      ensures table[..] == Unlinked(old(table[..]), queues, p, k)
    {
      if from == table[p].sendingQueue {
        assert prev == NIL;
        table[p] := table[p].(sendingQueue := table[from].nextSending);
        table[from] := table[from].(nextSending := NIL);
      } else {
        assert prev != NIL;
        table[prev] := table[prev].(nextSending := table[from].nextSending);
        table[from] := table[from].(nextSending := NIL);
      }
    }

    method Release(from: nat)
      requires from < table.Length
      modifies table
      ensures table[..] == old(table[..])[from := Released(old(table[from]))]
    {
      table[from] := table[from].(msg := false);
      table[from] := table[from].(sendto := NO_TASK);
      table[from] := table[from].(flags := table[from].flags - {SENDING});
    }

    /** The message of the k-th process on p's queue copied, the process taken off the queue and released. */
    method TakeOff(p: nat, from: nat, prev: int, ghost k: nat)
      requires Sizes() && |queues| == table.Length && p < table.Length && from < table.Length
      requires Linked(table[..], table[p].sendingQueue, queues[p]) && NoDuplicates(queues[p])
      requires k < |queues[p]| && queues[p][k] == from && prev == (if k == 0 then NIL else queues[p][k - 1])
      requires (k > 0 ==> prev < table.Length) && table[from].msg
      modifies table, userMsg
      ensures table[..] == Dequeued(old(table[..]), queues, p, k)
      ensures userMsg[..] == old(userMsg[..])[p := old(userMsg[from])]
    {
      ghost var t := table[..];
      Unlink(p, from, prev, k);
      assert table[from].msg;
      userMsg[p] := userMsg[from];
      Release(from);
    }

    /** Takes the chosen sender off the queue, copies its message and lets it run. */
    method TakeMessage(p: nat, src: int, from: nat, prev: int, ghost k: nat)
      requires Valid() && p < table.Length && table[p].flags == {} && userMsg[p].source == p
      requires from < table.Length && from == Chosen(Core(), p, src) && !IntReady(Core(), p, src)
      requires k < |queues[p]| && queues[p][k] == from && prev == (if k == 0 then NIL else queues[p][k - 1])
      requires Inv(ReceiveStep(Core(), p, src, userMsg[p]))
      modifies table, userMsg, this`queues
      ensures Valid() && Core() == ReceiveStep(old(Core()), p, src, old(userMsg[p]))
      ensures Clock() == old(Clock()).(runnable := Clock().runnable) && table[p].flags == {}
    {
      ghost var t, q := table[..], queues[p];
      MatchFromInv(t, Core());
      DequeueOk(t, queues, p, k);
      TakeOff(p, from, prev, k);
      DequeueView(t, queues, p, k);
      assert table[p].flags == {} by { assert Dequeued(t, queues, p, k)[p].flags == {}; }
      RemoveAt(q, k);
      queues := queues[p := q[..k] + q[k + 1..]];
      assert Core() == ReceiveStep(old(Core()), p, src, old(userMsg[p]));
    }

    /** The receiver's flags. */
    method AwaitMessage(p: nat, src: int)
      requires Valid() && p < table.Length && ValidSource(table.Length, p, src)
      requires table[p].flags == {} && userMsg[p].source == p
      requires Chosen(Core(), p, src) < 0 && !IntReady(Core(), p, src)
      requires Inv(ReceiveStep(Core(), p, src, userMsg[p]))
      modifies table
      ensures Valid() && Core() == ReceiveStep(old(Core()), p, src, old(userMsg[p]))
      ensures Clock() == old(Clock()).(runnable := Clock().runnable) && table[p].flags == {RECEIVING}
      ensures table[p].hasIntMsg == old(table[p].hasIntMsg)
      ensures forall i | 0 <= i < table.Length && i != p :: table[i].flags == old(table[i].flags)
    {
      ghost var t := table[..];
      table[p] := table[p].(flags := table[p].flags + {RECEIVING});
      assert table[p].flags == {RECEIVING};
      table[p] := table[p].(msg := true);
      table[p] := table[p].(recvfrom := src);
      TouchOk(t, queues, p, table[p]);
      assert table[..] == t[p := table[p]];
      assert Core() == ReceiveStep(old(Core()), p, src, old(userMsg[p]));
    }

    // -------------------------------------------------------------- interrupts

    method InformInit(task: nat)
      requires Valid() && task < table.Length
      modifies table, userMsg
      ensures Valid() && Core() == InformStep(old(Core()), task)
      ensures Clock() == old(Clock()).(runnable := Clock().runnable)
      ensures forall i | 0 <= i < table.Length :: old(table[i].flags) == {} ==> table[i].flags == {}
    {
      ghost var t := table[..];
      InformKeepsInv(Core(), task);
      assert PhaseOf(table[task]) == Core().phase[task];
      if RECEIVING in table[task].flags && (table[task].recvfrom == INTERRUPT || table[task].recvfrom == ANY) {
        userMsg[task] := userMsg[task].(source := INTERRUPT);
        userMsg[task] := userMsg[task].(kind := HARDWARE_INT);
        table[task] := table[task].(msg := false);
        table[task] := table[task].(hasIntMsg := false);
        table[task] := table[task].(flags := table[task].flags - {RECEIVING});
        table[task] := table[task].(recvfrom := NO_TASK);
        assert table[task].flags == {};
        assert table[task].sendto == NO_TASK;
      } else {
        table[task] := table[task].(hasIntMsg := true);
      }
      TouchOk(t, queues, task, table[task]);
      assert table[..] == t[task := table[task]];
      assert Core() == InformStep(old(Core()), task);
    }

    /** The clock interrupt.  `reentered` says that it interrupted the kernel itself (k_reenter != 0). */
    method ClockHandler(reentered: bool)
      requires Valid() && ReadyRuns() && SomeoneCanRun()
      modifies this`ready, this`ticks, table, userMsg, procTicks
      ensures Valid() && ReadyRuns()
      ensures ticks == (if old(ticks) + 1 >= MAX_TICKS then 0 else old(ticks) + 1)
      ensures Core() == if old(keyPressed) then InformStep(old(Core()), TASK_TTY) else old(Core())
      ensures Sched.Interrupted(old(Sched.Charge(Clock())), Clock(), reentered)
    {
      ghost var charged := Sched.Charge(Clock());
      CountTick();
      NotifyTty();
      Reschedule(reentered, charged);
    }

    /** The keyboard flag passed on to the terminal task. */
    method NotifyTty()
      requires Valid() && ReadyRuns() && SomeoneCanRun()
      modifies table, userMsg
      ensures Valid() && ReadyRuns() && SomeoneCanRun()
      ensures Core() == if keyPressed then InformStep(old(Core()), TASK_TTY) else old(Core())
      ensures Clock() == old(Clock()).(runnable := Clock().runnable)
    {
      if keyPressed {
        InformInit(TASK_TTY);
      }
    }

    /** Clock interrupts without a key pressed, from start-up or any later moment: from the first on they are a run
        of Sched, so what it proves about waiting and sharing holds of the kernel. */
    method ClockRun(n: nat) returns (ghost run: seq<Sched.Clock>)
      requires Valid() && !keyPressed && Funded(Now())
      modifies this`ready, this`ticks, table, userMsg, procTicks
      ensures Valid() && Core() == old(Core())
      ensures n > 0 ==> |run| == n && Sched.IsRun(run) && run[n - 1] == Clock()
      ensures n > 0 ==> Sched.Interrupted(old(Sched.Charge(Clock())), run[0], false)
    {
      run := [];
      if n > 0 {
        FirstClock();
        run := MoreClocks(n - 1);
      }
    }

    method MoreClocks(n: nat) returns (ghost run: seq<Sched.Clock>)
      requires Valid() && !keyPressed && Sched.Sound(Clock())
      modifies this`ready, this`ticks, table, userMsg, procTicks
      ensures Valid() && Core() == old(Core())
      ensures |run| == n + 1 && Sched.IsRun(run) && run[0] == old(Clock()) && run[n] == Clock()
    {
      run := [Clock()];
      for i := 0 to n
        invariant Valid() && Core() == old(Core()) && Sched.Sound(Clock())
        invariant |run| == i + 1 && Sched.IsRun(run) && run[0] == old(Clock()) && run[i] == Clock()
      {
        run := OneClock(run);
      }
    }

    /** The first clock interrupt, which finds all ticks 0 after start-up, makes the clock sound. */
    method FirstClock()
      requires Valid() && !keyPressed && Funded(Now())
      modifies this`ready, this`ticks, table, userMsg, procTicks
      ensures Valid() && Core() == old(Core()) && Sched.Sound(Clock())
      ensures Sched.Interrupted(old(Sched.Charge(Clock())), Clock(), false)
    {
      ghost var s := Now();
      assert s.clock.runnable[ready] && s.core.phase[ready] == Running;
      ClockHandler(false);
      RunnableIsRunning();
      StepSound(s, ClockInterrupt(false), Now(), 0);
    }

    /** One such interrupt. */
    method OneClock(ghost run: seq<Sched.Clock>) returns (ghost run': seq<Sched.Clock>)
      requires Valid() && !keyPressed && Sched.IsRun(run) && run[|run| - 1] == Clock() && Sched.Sound(Clock())
      modifies this`ready, this`ticks, table, userMsg, procTicks
      ensures Valid() && Core() == old(Core()) && Sched.Sound(Clock())
      ensures Sched.IsRun(run') && run' == run + [Clock()]
    {
      ghost var c := Clock();
      TickClock(c);
      Sched.OneTick(c);
      Sched.ExtendRun(run, Clock());
      run' := run + [Clock()];
    }

    method TickClock(ghost c: Sched.Clock)
      requires Valid() && !keyPressed && c == Clock() && Sched.Sound(c)
      modifies this`ready, this`ticks, table, userMsg, procTicks
      ensures Valid() && Core() == old(Core())
      ensures Sched.CanSchedule(Sched.Charge(c)) && Clock() == Sched.Tick(c)
    {
      assert c.runnable[ready] && c.priority[ready] > 0;
      Sched.OneTick(c);
      ClockHandler(false);
      assert Clock().runnable == c.runnable by {
        SameRunnables(old(table[..]), table[..]);
      }
      Sched.InterruptIsTick(c, Clock());
    }

    /** The end of the clock interrupt: another process is chosen when the running one has used its ticks. */
    method Reschedule(reentered: bool, ghost charged: Sched.Clock)
      requires Valid() && ReadyRuns() && SomeoneCanRun()
      requires Sched.Sized(charged) && Clock() == charged.(runnable := Clock().runnable)
      modifies this`ready, procTicks
      ensures Valid() && ReadyRuns() && Core() == old(Core())
      ensures Sched.Interrupted(charged, Clock(), reentered)
    {
      assert Sched.CanSchedule(Clock()) by {
        var i :| 0 <= i < table.Length && table[i].flags == {} && priority[i] > 0;
        assert Clock().runnable[i];
      }
      assert Clock().runnable[ready];
      if reentered {
        return;
      }
      if procTicks[ready] > 0 {
        return;
      }
      Schedule();
      Sched.InterruptedRuns(charged, Clock(), reentered);
      assert Clock().runnable[ready];
    }

    method CountTick()
      requires Valid() && ReadyRuns() && SomeoneCanRun()
      modifies procTicks, this`ticks
      ensures Valid() && ReadyRuns() && SomeoneCanRun() && Core() == old(Core())
      ensures ticks == (if old(ticks) + 1 >= MAX_TICKS then 0 else old(ticks) + 1)
      ensures Clock() == old(Sched.Charge(Clock()))
    {
      ticks := ticks + 1;
      if ticks >= MAX_TICKS {
        ticks := 0;
      }
      if procTicks[ready] != 0 {
        procTicks[ready] := procTicks[ready] - 1;
      }
    }

    // -------------------------------------------------------------- the system call

    /** The process that has the processor is runnable. */
    ghost predicate ReadyRuns()
      reads this, table
      requires Sizes()
    {
      table[ready].flags == {}
    }

    ghost predicate SomeoneCanRun()
      reads this, table, priority
      requires Sizes()
    {
      exists i :: 0 <= i < table.Length && table[i].flags == {} && priority[i] > 0
    }

    /** The call that the running process makes. */
    ghost function Made(f: Function, srcDest: int, m: Message): IpcRuns.Call
      reads this
      requires Sizes() && ValidTarget(f, srcDest, table.Length, ready)
    {
      CallOf(f, srcDest, m, ready)
    }

    /** sys_sendrec records the caller in the message. */
    method Stamp(m: Message)
      requires Valid()
      modifies userMsg
      ensures Valid() && userMsg[ready] == m.(source := ready)
      ensures Core() == old(Core()).(buf := old(Core()).buf[ready := m.(source := ready)])
    {
      userMsg[ready] := m.(source := ready);
      assert Core() == old(Core()).(buf := old(Core()).buf[ready := m.(source := ready)]);
    }

    /** msg_send or msg_receive for the running process, whose message carries its number. */
    method Transact(f: Function, srcDest: int) returns (ok: bool)
      requires Valid() && ReadyRuns() && ValidTarget(f, srcDest, table.Length, ready) && OthersCanRun(ready)
      requires userMsg[ready].source == ready
      modifies this`ready, this`queues, table, userMsg, procTicks
      ensures ok <==> !old(Fails(Now(), f, srcDest))
      ensures ok ==> Valid() && ReadyRuns() && Sched.Resumed(old(Clock()), Clock(), old(ready))
      ensures ok ==> Core() == old(if f == SEND then SendStep(Core(), ready, srcDest, userMsg[ready])
                                   else ReceiveStep(Core(), ready, srcDest, userMsg[ready]))
      ensures !ok && f == SEND ==> Core() == old(Core())
    {
      ghost var before := Clock();
      match f {
        case SEND =>
          ok := MsgSend(ready, srcDest);
        case RECEIVE =>
          ok := MsgReceive(ready, srcDest);
      }
      if ok {
        Sched.ResumedRuns(before, Clock());
        assert Clock().runnable[ready];
      }
    }

    /** The running process makes a system call; false is the panic on a deadlock, or the assertion that no interrupt
        is pending for a process that blocks on another. */
    method SysSendrec(f: Function, srcDest: int, m: Message) returns (ok: bool)
      requires Valid() && ReadyRuns() && ValidTarget(f, srcDest, table.Length, ready) && OthersCanRun(ready)
      modifies this`ready, this`queues, table, userMsg, procTicks
      ensures ok <==> old(IpcRuns.Legal(Core(), Made(f, srcDest, m)))
      ensures ok ==> Valid() && ReadyRuns() && Core() == old(IpcRuns.CoreStep(Core(), Made(f, srcDest, m)))
      ensures ok ==> Sched.Resumed(old(Clock()), Clock(), old(ready))
      ensures !ok ==> old(Fails(Now(), f, srcDest)) && (f == SEND ==> Core().phase == old(Core()).phase)
    {
      assert Core().phase[ready] == Running;
      IpcRuns.StampedStep(Core(), Made(f, srcDest, m), ready, m);
      Stamp(m);
      ok := Transact(f, srcDest);
    }

    // -------------------------------------------------------------- running

    /** Somebody who never calls keeps the processor busy, so every call finds others to run. */
    lemma IdleRuns(idle: nat)
      requires Valid() && idle < table.Length && Core().phase[idle] == Running && priority[idle] > 0
      ensures SomeoneCanRun() && (ready != idle ==> OthersCanRun(ready))
    {
      assert PhaseOf(table[idle]) == Running;
    }

    /** The state as seen from outside. */
    ghost function Now(): Moment
      reads this, table, userMsg, procTicks, priority
    {
      Moment(Core(), Clock(), ticks, keyPressed)
    }

    /** What the kernel keeps between events; `idle` is a process that makes no calls. */
    ghost predicate Up(idle: nat)
      reads this, table, userMsg, procTicks, priority
    {
      && Valid() && ReadyRuns() && TASK_HD < table.Length
      && idle < table.Length && Core().phase[idle] == Running && priority[idle] > 0
    }

    lemma RunnableIsRunning()
      requires Valid()
      ensures Clock().runnable == Runs(Core().phase)
    {
      forall p | 0 <= p < table.Length ensures Clock().runnable[p] == Runs(Core().phase)[p] {
        assert Core().phase[p] == PhaseOf(table[p]);
      }
    }

    /** A call of the running process, unless that is the one that makes none.  False is the end of the system. */
    method StepCall(f: Function, srcDest: int, m: Message, idle: nat) returns (ok: bool)
      requires Up(idle)
      modifies this`ready, this`queues, table, userMsg, procTicks
      ensures ok <==> !Ends(old(Now()), SysCall(f, srcDest, m), idle)
      ensures ok ==> Up(idle) && Happened(old(Now()), SysCall(f, srcDest, m), Now(), idle)
    {
      ok := true;
      RunnableIsRunning();
      if ready != idle {
        if !ValidTarget(f, srcDest, table.Length, ready) {
          return false;
        }
        IdleRuns(idle);
        ghost var s, c := Now(), Made(f, srcDest, m);
        assert s.core.phase[ready] == Running by { assert PhaseOf(table[ready]) == Running; }
        LegalOrEnds(s, f, srcDest, m, idle);
        ok := SysSendrec(f, srcDest, m);
        if ok {
          IpcRuns.IdleStaysRunnable(s.core, c, idle);
          RunnableIsRunning();
          CallHappened(s, Now(), f, srcDest, m, idle);
        }
      }
    }

    method StepDisk(idle: nat)
      requires Up(idle)
      modifies table, userMsg
      ensures Up(idle) && Happened(old(Now()), DiskInterrupt, Now(), idle)
    {
      InformKeepsRunning(Core(), TASK_HD, idle);
      InformInit(TASK_HD);
      RunnableIsRunning();
    }

    method StepClock(reentered: bool, idle: nat)
      requires Up(idle)
      modifies this`ready, this`ticks, table, userMsg, procTicks
      ensures Up(idle) && Happened(old(Now()), ClockInterrupt(reentered), Now(), idle)
    {
      ghost var s := Now();
      IdleRuns(idle);
      InformKeepsRunning(Core(), TASK_TTY, idle);
      ClockHandler(reentered);
      RunnableIsRunning();
      ClockHappened(s, Now(), reentered, idle);
    }

    /** One event; false exactly when it ends the system. */
    method Handle(e: Event, idle: nat) returns (ok: bool)
      requires Up(idle)
      modifies this`ready, this`queues, this`ticks, this`keyPressed, table, userMsg, procTicks
      ensures ok <==> !Ends(old(Now()), e, idle)
      ensures ok ==> Up(idle) && Happened(old(Now()), e, Now(), idle)
    {
      ok := true;
      match e {
        case KeyPressed(down) =>
          RunnableIsRunning();
          keyPressed := down;
        case ClockInterrupt(reentered) =>
          StepClock(reentered, idle);
        case DiskInterrupt =>
          StepDisk(idle);
        case SysCall(f, srcDest, m) =>
          ok := StepCall(f, srcDest, m, idle);
      }
    }

    /** Whatever the processes call and whenever interrupts come, every event has its effect, up to the first that
        ends the system. */
    method Operate(events: seq<Event>, idle: nat) returns (ok: bool, handled: nat, ghost moments: seq<Moment>)
      requires Up(idle)
      modifies this`ready, this`queues, this`ticks, this`keyPressed, table, userMsg, procTicks
      ensures Story(moments, events, idle, handled) && moments[0] == old(Now())
      ensures ok <==> handled == |events|
      ensures ok ==> Up(idle) && moments[handled] == Now()
      ensures !ok ==> Ends(moments[handled], events[handled], idle)
    {
      ok, handled, moments := true, 0, [Now()];
      while handled < |events|
        invariant Story(moments, events, idle, handled) && moments[0] == old(Now())
        invariant Up(idle) && moments[handled] == Now()
      {
        ok := Handle(events[handled], idle);
        if !ok {
          return;
        }
        ExtendStory(moments, events, idle, handled, Now());
        moments := moments + [Now()];
        handled := handled + 1;
      }
    }
  }

  /** The moment at which kernel_main starts the first process. */
  ghost predicate Booted(s: Moment, free: seq<bool>, prio: seq<int>) {
    && |s.core.phase| == |s.core.queue| == |s.core.pending| == |free| == |prio|
    && (forall p | 0 <= p < |free| ::
          && s.core.phase[p] == (if free[p] then Unused else Running)
          && s.core.queue[p] == [] && !s.core.pending[p])
    && s.clock.ticks == seq(|free|, _ => 0) && s.clock.priority == prio && s.clock.ready == 0
    && s.ticks == 0 && !s.key
  }

  /** From start-up on: the first `handled` events have their effect, all of them unless the next one ends the
      system, and the record of sends, deliveries and interrupts that IpcRuns speaks of is the record of exactly
      their calls. */
  method Boot(free: seq<bool>, prio: seq<int>, events: seq<Event>, idle: nat)
    returns (k: Kernel, ok: bool, handled: nat, ghost moments: seq<Moment>, ghost run: seq<IpcRuns.System>)
    requires TASK_HD < |free| == |prio| <= MAX_TABLE && !free[0] && idle < |free| && !free[idle] && prio[idle] > 0
    ensures Story(moments, events, idle, handled) && Booted(moments[0], free, prio)
    ensures (forall p | 0 <= p < |free| && !free[p] :: prio[p] > 0) ==> Funded(moments[0])
    ensures ok <==> handled == |events|
    ensures ok ==> k.Up(idle) && moments[handled] == k.Now()
    ensures !ok ==> Ends(moments[handled], events[handled], idle)
    ensures var calls := CallsMade(moments, events, idle, handled);
            && IpcRuns.IsRun(run, calls) && IpcRuns.Faithful(run[|calls|]) && run[|calls|].core == moments[handled].core
            && run[|calls|].h.sent == IpcRuns.Sends(calls)
  {
    k := new Kernel(free, prio);
    ghost var start := IpcRuns.Beginning(k.Core());
    BootedNow(k, free, prio);
    k.RunnableIsRunning();
    BootedFunded(k.Now(), free, prio);
    ok, handled, moments := k.Operate(events, idle);
    ghost var calls := CallsMade(moments, events, idle, handled);
    ghost var cores := StoryIsRun(moments, events, idle, handled);
    run := IpcRuns.RecordOfRun(start, cores, calls);
    IpcRuns.RunFaithful(run, calls, |calls|);
    IpcRuns.RecordOfCalls(run, calls, |calls|);
    assert calls[..|calls|] == calls;
  }

  lemma BootedFunded(s: Moment, free: seq<bool>, prio: seq<int>)
    requires Booted(s, free, prio) && Inv(s.core) && Sched.Sized(s.clock) && s.core.Size() > TASK_HD && !free[0]
    requires s.clock.runnable == Runs(s.core.phase)
    ensures (forall p | 0 <= p < |free| && !free[p] :: prio[p] > 0) ==> Funded(s)
  {
  }

  lemma BootedNow(k: Kernel, free: seq<bool>, prio: seq<int>)
    requires k.Valid() && 0 < |free| == |prio| <= MAX_TABLE && !free[0] && k.ready == 0 && k.ticks == 0 && !k.keyPressed
    requires k.Core().phase == seq(|free|, i requires 0 <= i < |free| => if free[i] then Unused else Running)
    requires (forall q | q in k.Core().queue :: q == []) && (forall b | b in k.Core().pending :: !b)
    requires k.priority[..] == prio && k.procTicks[..] == seq(|free|, _ => 0)
    ensures Booted(k.Now(), free, prio) && k.ReadyRuns()
    ensures IpcRuns.Initial(IpcRuns.Beginning(k.Core()))
  {
    assert PhaseOf(k.table[0]) == k.Core().phase[0] == Running;
    forall p | 0 <= p < |free| ensures k.Core().queue[p] == [] && !k.Core().pending[p] {
      assert k.Core().queue[p] in k.Core().queue && k.Core().pending[p] in k.Core().pending;
    }
  }
}
