/** The file server's main loop: it carries out any run of legal requests, from the state that mkfs leaves. */
module Service {
  import opened Base
  import opened Bits
  import opened InodeCache
  import opened Refs
  import opened Files
  import opened Requests
  import opened FsRuns
  import opened Contents
  import opened FileServer
  import FileIo

  /** What arrives at the server: a request, or an LSEEK, which it has no case for. */
  datatype Message = Case(q: Request) | Lseek(p: nat, fd: nat, whence: int, off: int)

  /** FD, CNT or RETVAL sent back, or, for a READ on a terminal, nothing yet. */
  datatype Answer = Sent(r: int) | Withheld

  /** The sectors that the chunks of a transfer go over exist on a disk of `size` bytes, and the caller's buffer is
      large enough. */
  ghost predicate InReach(fs: Fs, q: Request, room: nat, size: nat) {
    && (q.Transfer? ==> q.len <= room)
    && (Transfers(fs, q) ==>
          var pos, f := DescOf(fs, q.p, q.fd).pos, Target(fs, q);
          && SECTOR_SIZE * (f.start + pos / SECTOR_SIZE + FileIo.Sects(pos, q.len, Bound(f, q.write))) <= size
          && From(fs, q) <= size)
  }

  /** What the request is answered. */
  ghost function Reply(fs: Fs, n1st: nat, q: Request): Answer
    requires Legal(fs, n1st, q) && n1st > 0
  {
    match q
    case Open(p, path, flags) => Sent(Opened(fs, n1st, p, path, flags).1)
    case Close(_, _) => Sent(0)
    case Transfer(p, fd, write, len) =>
      HeldCanDrop(fs.t, p, fd);
      if Transfers(fs, q) then Sent(Count(fs, q))
      else if !ReadWrite(DescOf(fs, p, fd).mode) then Sent(0)
      else if write then Sent(len) else Withheld
    case Fork(_, _) => Sent(0)
    case Exit(_) => Sent(0)
    case Unlink(path) => Sent(Unlinked(fs, n1st, path).1)
    case Resume(_, cnt) => Sent(cnt)
  }

  /** Disk and buffer after a request. */
  ghost predicate Moves(fs: Fs, q: Request, disk: seq<byte>, buf: seq<byte>, disk': seq<byte>, buf': seq<byte>) {
    Fits(fs, q, buf, disk) && disk' == DiskAfter(fs, q, buf, disk) && buf' == BufferAfter(fs, q, buf, disk)
  }

  /** What the callers are answered: 0 for a close, a fork, an exit and an unlink that succeeds; for an open the
      entry it takes; for a transfer without O_RDWR 0; for one inside its file or extent its length; a terminal's WRITE
      is answered, its READ is not. */
  lemma RepliesAre(fs: Fs, n1st: nat, q: Request)
    requires Legal(fs, n1st, q) && n1st > 0
    requires q.Transfer? ==> CanDrop(fs.t, q.p, q.fd)
    ensures var a := Reply(fs, n1st, q);
            match q
            case Open(p, _, flags) => a == Sent(-1) || (a.Sent? && 0 <= a.r < |fs.t.filp[p]| && fs.t.filp[p][a.r] == -1)
            case Transfer(p, fd, write, len) =>
              var d := DescOf(fs, p, fd); var f := fs.t.cache[d.inode].f;
              if d.mode / 2 % 2 == 0 then a == Sent(0)
              else if f.mode == 0x2000 then a == if write then Sent(len) else Withheld
              else a.Sent? && (d.pos + len <= (if write then f.nrSects * 512 else f.size) ==> a == Sent(len))
            case Unlink(path) => a == Sent(0) || a == Sent(-1)
            case Resume(_, cnt) => a == Sent(cnt)
            case _ => a == Sent(0)
  {
    if q.Transfer? && Transfers(fs, q) {
      var d := DescOf(fs, q.p, q.fd);
      InsideMoves(d.pos, q.len, fs.t.cache[d.inode].f, q.write);
    }
  }

  method ServeTransfer(server: Server, q: Request, buf: array<byte>) returns (answer: Answer)
    requires server.Valid() && server.Apart(buf) && buf != server.data.fsbuf && buf != server.maps.fsbuf
    requires q.Transfer? && Legal(server.State(), server.n1stSect, q) && server.n1stSect > 0
    requires InReach(server.State(), q, buf.Length, |server.data.disk|)
    modifies server.descs, server.inodes, server.inodes.table, server.data, server.data.fsbuf, buf
    ensures server.Valid() && server.State() == Handled(old(server.State()), server.n1stSect, q)
    ensures answer == Reply(old(server.State()), server.n1stSect, q)
    ensures Moves(old(server.State()), q, old(server.data.disk), old(buf[..]), server.data.disk, buf[..])
  {
    HeldCanDrop(server.State().t, q.p, q.fd);
    ghost var fs, disk, data := server.State(), server.data.disk, buf[..];
    var n, suspended := CallRdwt(server, q, buf);
    TransferServed(fs, server.n1stSect, q, n, suspended, disk, data, server.data.disk, buf[..]);
    answer := if suspended then Withheld else Sent(n);
  }

  method CallRdwt(server: Server, q: Request, buf: array<byte>) returns (n: nat, suspended: bool)
    requires server.Valid() && server.Apart(buf) && buf != server.data.fsbuf && buf != server.maps.fsbuf
    requires q.Transfer? && CloseLegal(server.State(), server.n1stSect, q.p, q.fd)
    requires CanDrop(server.State().t, q.p, q.fd)
    requires InReach(server.State(), q, buf.Length, |server.data.disk|)
    modifies server.descs, server.inodes, server.inodes.table, server.data, server.data.fsbuf, buf
    ensures server.Valid()
    ensures server.State() == Transferred(old(server.State()), server.n1stSect, q.p, q.fd, q.write, q.len)
    ensures Served(old(server.State()), q, n, suspended, old(server.data.disk), old(buf[..]), server.data.disk, buf[..])
  {
    n, suspended := server.DoRdwt(q.p, q.fd, q.write, buf, q.len);
  }

  /** What do_rdwt returns and moves. */
  ghost predicate Served(fs: Fs, q: Request, n: nat, suspended: bool, disk: seq<byte>, data: seq<byte>,
      disk': seq<byte>, data': seq<byte>)
    requires q.Transfer? && CanDrop(fs.t, q.p, q.fd)
  {
    if Transfers(fs, q) then
      n == Count(fs, q) && !suspended && FileIo.Done(q.write, From(fs, q), n, disk, data, disk', data')
    else
      var rdwr := ReadWrite(DescOf(fs, q.p, q.fd).mode);
      n == (if rdwr then q.len else 0) && (suspended <==> rdwr && !q.write) && disk' == disk && data' == data
  }

  /** That is the answer, and the move, of the transfer. */
  lemma TransferServed(fs: Fs, n1st: nat, q: Request, n: nat, suspended: bool, disk: seq<byte>, data: seq<byte>,
      disk': seq<byte>, data': seq<byte>)
    requires q.Transfer? && Legal(fs, n1st, q) && n1st > 0 && CanDrop(fs.t, q.p, q.fd) && q.len <= |data|
    requires Served(fs, q, n, suspended, disk, data, disk', data')
    ensures (if suspended then Withheld else Sent(n)) == Reply(fs, n1st, q)
    ensures Moves(fs, q, disk, data, disk', data')
  {
  }

  /** One message, as task_fs dispatches it; false is its assertion on a message without a case. */
  method Serve(server: Server, m: Message, buf: array<byte>) returns (ok: bool, answer: Answer)
    requires server.Valid() && server.Apart(buf) && buf != server.data.fsbuf && buf != server.maps.fsbuf
    requires m.Case? ==> Legal(server.State(), server.n1stSect, m.q)
                         && InReach(server.State(), m.q, buf.Length, |server.data.disk|)
    modifies server.filp, server.descs, server.inodes, server.inodes.table, server.maps, server.maps.fsbuf, server.dir
    modifies server.data, server.data.fsbuf, buf
    ensures ok <==> m.Case?
    ensures server.Valid()
    ensures ok ==> server.State() == Handled(old(server.State()), server.n1stSect, m.q)
    ensures ok ==> answer == Reply(old(server.State()), server.n1stSect, m.q)
    ensures ok ==> Moves(old(server.State()), m.q, old(server.data.disk), old(buf[..]), server.data.disk, buf[..])
    ensures !ok ==> server.State() == old(server.State()) && server.data.disk == old(server.data.disk)
  {
    ok, answer := true, Sent(0);
    match m {
      case Lseek(_, _, _, _) => ok := false;
      case Case(q) => answer := Dispatch(server, q, buf);
    }
  }

  /** The cases. */
  method Dispatch(server: Server, q: Request, buf: array<byte>) returns (answer: Answer)
    requires server.Valid() && server.Apart(buf) && buf != server.data.fsbuf && buf != server.maps.fsbuf
    requires Legal(server.State(), server.n1stSect, q)
    requires InReach(server.State(), q, buf.Length, |server.data.disk|)
    modifies server.filp, server.descs, server.inodes, server.inodes.table, server.maps, server.maps.fsbuf, server.dir
    modifies server.data, server.data.fsbuf, buf
    ensures server.Valid() && server.State() == Handled(old(server.State()), server.n1stSect, q)
    ensures answer == Reply(old(server.State()), server.n1stSect, q)
    ensures Moves(old(server.State()), q, old(server.data.disk), old(buf[..]), server.data.disk, buf[..])
  {
    if q.Transfer? {
      answer := ServeTransfer(server, q, buf);
    } else {
      var r := ServeOther(server, q);
      answer := Sent(r);
    }
  }

  method ServeOther(server: Server, q: Request) returns (r: int)
    requires server.Valid() && Legal(server.State(), server.n1stSect, q) && !q.Transfer?
    modifies server.filp, server.descs, server.inodes, server.inodes.table, server.maps, server.maps.fsbuf, server.dir
    ensures server.Valid() && server.State() == Handled(old(server.State()), server.n1stSect, q)
    ensures Sent(r) == Reply(old(server.State()), server.n1stSect, q)
  {
    match q
    case Open(p, path, flags) => r := server.DoOpen(p, path, flags);
    case Close(p, fd) => r := server.DoClose(p, fd);
    case Fork(child, parent) => r := server.FsFork(child, parent);
    case Exit(p) => r := server.FsExit(p);
    case Unlink(path) => r := server.DoUnlink(path);
    case Resume(_, cnt) => r := cnt;
  }

  /** The loop of task_fs carries out every run and answers every request.  datas[i] is the buffer of the caller of
      request i, outs[i] the same buffer afterwards. */
  method ServeAll(server: Server, reqs: seq<Request>, datas: seq<seq<byte>>, ghost run: seq<Fs>)
    returns (answers: seq<Answer>, outs: seq<seq<byte>>, ghost disks: seq<seq<byte>>)
    requires server.Valid() && IsRun(run, reqs, server.n1stSect) && server.State() == run[0] && |datas| == |reqs|
    requires forall i | 0 <= i < |reqs| :: InReach(run[i], reqs[i], |datas[i]|, |server.data.disk|)
    modifies server.filp, server.descs, server.inodes, server.inodes.table, server.maps, server.maps.fsbuf, server.dir
    modifies server.data, server.data.fsbuf
    ensures server.Valid() && server.State() == run[|reqs|] && FsOk(server.State(), server.n1stSect)
    ensures |answers| == |outs| == |reqs| && DiskRun(run, reqs, datas, disks)
    ensures disks[0] == old(server.data.disk) && disks[|reqs|] == server.data.disk
    ensures forall i | 0 <= i < |reqs| :: AnsweredAt(run, reqs, server.n1stSect, datas, disks, answers, outs, i)
  {
    answers, outs, disks := [], [], [server.data.disk];
    for i := 0 to |reqs|
      invariant server.Valid() && server.State() == run[i] && |answers| == |outs| == i && |disks| == i + 1
      invariant disks[0] == old(server.data.disk) && disks[i] == server.data.disk && |disks[i]| == |disks[0]|
      invariant forall j | 0 <= j < i :: DiskStep(run, reqs, datas, disks, j)
      invariant forall j | 0 <= j < i :: AnsweredAt(run, reqs, server.n1stSect, datas, disks, answers, outs, j)
    {
      var answer, out := ServeNext(server, reqs, datas, run, i, disks);
      OneMore(run, reqs, server.n1stSect, datas, disks, answers, outs, server.data.disk, answer, out);
      answers, outs, disks := answers + [answer], outs + [out], disks + [server.data.disk];
    }
    RunOk(run, reqs, server.n1stSect, |reqs|);
  }

  /** The i-th request of a run. */
  method ServeNext(server: Server, reqs: seq<Request>, datas: seq<seq<byte>>, ghost run: seq<Fs>, i: nat,
      ghost disks: seq<seq<byte>>)
    returns (answer: Answer, out: seq<byte>)
    requires server.Valid() && IsRun(run, reqs, server.n1stSect) && |datas| == |reqs| && i < |reqs| < |run|
    requires server.State() == run[i] && |disks| == i + 1 && disks[i] == server.data.disk
    requires InReach(run[i], reqs[i], |datas[i]|, |server.data.disk|)
    modifies server.filp, server.descs, server.inodes, server.inodes.table, server.maps, server.maps.fsbuf, server.dir
    modifies server.data, server.data.fsbuf
    ensures server.Valid() && server.State() == run[i + 1]
    ensures Answered(run[i], server.n1stSect, reqs[i], datas[i], disks[i], answer, out)
    ensures server.data.disk == DiskAfter(run[i], reqs[i], datas[i], disks[i])
  {
    assert StepAt(run, reqs, server.n1stSect, i);
    var data := datas[i];
    var buf := new byte[|data|](k requires 0 <= k < |data| => data[k]);
    assert buf[..] == data;
    answer := Dispatch(server, reqs[i], buf);
    out := buf[..];
  }

  /** A request answered as it should be, with the caller's buffer as it should be. */
  ghost predicate Answered(fs: Fs, n1st: nat, q: Request, data: seq<byte>, disk: seq<byte>, answer: Answer,
      out: seq<byte>)
  {
    && n1st > 0 && Legal(fs, n1st, q) && answer == Reply(fs, n1st, q)
    && Fits(fs, q, data, disk) && out == BufferAfter(fs, q, data, disk)
  }

  ghost predicate AnsweredAt(run: seq<Fs>, reqs: seq<Request>, n1st: nat, datas: seq<seq<byte>>, disks: seq<seq<byte>>,
      answers: seq<Answer>, outs: seq<seq<byte>>, i: nat)
  {
    && i < |answers| && i < |outs| && i < |reqs| && i < |run| && i < |datas| && i < |disks|
    && Answered(run[i], n1st, reqs[i], datas[i], disks[i], answers[i], outs[i])
  }

  lemma OneMore(run: seq<Fs>, reqs: seq<Request>, n1st: nat, datas: seq<seq<byte>>, disks: seq<seq<byte>>,
      answers: seq<Answer>, outs: seq<seq<byte>>, disk: seq<byte>, answer: Answer, out: seq<byte>)
    requires |answers| == |outs| < |reqs| == |datas| < |run| && |disks| == |answers| + 1
    requires forall j | 0 <= j < |answers| :: DiskStep(run, reqs, datas, disks, j)
    requires forall j | 0 <= j < |answers| :: AnsweredAt(run, reqs, n1st, datas, disks, answers, outs, j)
    requires var i := |answers|;
             && Answered(run[i], n1st, reqs[i], datas[i], disks[i], answer, out)
             && disk == DiskAfter(run[i], reqs[i], datas[i], disks[i])
    ensures forall j | 0 <= j < |answers| + 1 :: DiskStep(run, reqs, datas, disks + [disk], j)
    ensures forall j | 0 <= j < |answers| + 1 ::
              AnsweredAt(run, reqs, n1st, datas, disks + [disk], answers + [answer], outs + [out], j)
  {
    forall j | 0 <= j < |answers| + 1 ensures DiskStep(run, reqs, datas, disks + [disk], j) {
      if j < |answers| { assert DiskStep(run, reqs, datas, disks, j); }
    }
    forall j | 0 <= j < |answers| + 1
      ensures AnsweredAt(run, reqs, n1st, datas, disks + [disk], answers + [answer], outs + [out], j)
    {
      if j < |answers| { assert AnsweredAt(run, reqs, n1st, datas, disks, answers, outs, j); }
    }
  }
}
