/**
 The contents of files over whole runs: with transfers that stay inside their files and extents, each file holds
 exactly what was written to it, and each READ returns that.
 */
module Contents {
  import opened Base
  import opened Bits
  import opened Extents
  import opened InodeCache
  import opened Directory
  import opened Refs
  import opened Files
  import opened FileOps
  import opened Requests
  import opened FsRuns
  import FileIo

  // ---------------------------------------------------------------- what a request does to the disk

  function DescOf(fs: Fs, p: nat, fd: nat): Desc
    requires CanDrop(fs.t, p, fd)
  {
    fs.t.descs[fs.t.filp[p][fd]]
  }

  /** q is a transfer that do_rdwt carries out itself. */
  ghost predicate Transfers(fs: Fs, q: Request) {
    q.Transfer? && CanDrop(fs.t, q.p, q.fd) && Movable(fs, DescOf(fs, q.p, q.fd))
  }

  /** ... on inode k. */
  ghost predicate Touches(fs: Fs, q: Request, k: nat) {
    Transfers(fs, q) && fs.t.cache[DescOf(fs, q.p, q.fd).inode].num == k
  }

  /** The inode that q transfers from or to. */
  ghost function Target(fs: Fs, q: Request): Fields
    requires Transfers(fs, q)
  {
    fs.t.cache[DescOf(fs, q.p, q.fd).inode].f
  }

  /** The byte of the disk at which q begins, and how many it moves. */
  ghost function From(fs: Fs, q: Request): nat
    requires Transfers(fs, q)
  {
    SECTOR_SIZE * Target(fs, q).start + DescOf(fs, q.p, q.fd).pos
  }

  ghost function Count(fs: Fs, q: Request): (n: nat)
    requires Transfers(fs, q)
    ensures n <= q.len
  {
    MovedBy(fs, DescOf(fs, q.p, q.fd), q.write, q.len)
  }

  /** `data` is the caller's buffer; the bytes moved exist in it and on the disk. */
  ghost predicate Fits(fs: Fs, q: Request, data: seq<byte>, disk: seq<byte>) {
    Transfers(fs, q) ==> q.len <= |data| && From(fs, q) + Count(fs, q) <= |disk|
  }

  ghost function DiskAfter(fs: Fs, q: Request, data: seq<byte>, disk: seq<byte>): (disk': seq<byte>)
    requires Fits(fs, q, data, disk)
    ensures |disk'| == |disk|
  {
    if Transfers(fs, q) && q.write then FileIo.Splice(disk, From(fs, q), data[..Count(fs, q)]) else disk
  }

  /** The caller's buffer after q. */
  ghost function BufferAfter(fs: Fs, q: Request, data: seq<byte>, disk: seq<byte>): (data': seq<byte>)
    requires Fits(fs, q, data, disk)
    ensures |data'| == |data|
  {
    if Transfers(fs, q) && !q.write then FileIo.Splice(data, 0, disk[From(fs, q)..From(fs, q) + Count(fs, q)]) else data
  }

  /** The disk between the requests of a run; datas[i] is the caller's buffer at request i. */
  ghost predicate DiskRun(run: seq<Fs>, reqs: seq<Request>, datas: seq<seq<byte>>, disks: seq<seq<byte>>) {
    && |run| == |disks| == |reqs| + 1 && |datas| == |reqs|
    && forall i | 0 <= i < |reqs| :: DiskStep(run, reqs, datas, disks, i)
  }

  ghost predicate DiskStep(run: seq<Fs>, reqs: seq<Request>, datas: seq<seq<byte>>, disks: seq<seq<byte>>, i: nat) {
    && i < |reqs| && i < |datas| && i < |run| && i + 1 < |disks|
    && Fits(run[i], reqs[i], datas[i], disks[i]) && disks[i + 1] == DiskAfter(run[i], reqs[i], datas[i], disks[i])
  }

  /** A descriptor opened with flags 1, without O_RDWR, never moves a byte, its position or a size; one opened with 2
      or 3 on a regular file moves all bytes of a transfer that stays inside. */
  lemma RdwrDecides(fs: Fs, n1st: nat, q: Request, data: seq<byte>, disk: seq<byte>)
    requires q.Transfer? && Legal(fs, n1st, q) && n1st > 0 && CanDrop(fs.t, q.p, q.fd) && Fits(fs, q, data, disk)
    requires 1 <= DescOf(fs, q.p, q.fd).mode <= 3
    ensures DescOf(fs, q.p, q.fd).mode == 1 ==>
              && Handled(fs, n1st, q) == fs
              && DiskAfter(fs, q, data, disk) == disk && BufferAfter(fs, q, data, disk) == data
    ensures var d := DescOf(fs, q.p, q.fd); var f := fs.t.cache[d.inode].f;
            d.mode >= 2 && f.mode == 32768 && d.pos + q.len <= (if q.write then f.nrSects * 512 else f.size) ==>
              Transfers(fs, q) && Count(fs, q) == q.len
  {
    var d := DescOf(fs, q.p, q.fd);
    InsideMoves(d.pos, q.len, fs.t.cache[d.inode].f, q.write);
  }

  // ---------------------------------------------------------------- what a request does to an inode

  /** create_file writes two inodes, the new one and the root. */
  lemma MadeDisk(fs: Fs, n1st: nat, path: seq<char>)
    requires FsOk(fs, n1st) && n1st > 0 && GoodPath(path) && CanAllocate(fs)
    ensures var c := NewFile(fs, n1st, path); var k := FirstClear(fs.inodeMap, 0);
            && |c.disk| == |fs.disk| && c.disk[k - 1] == NewFields(fs, n1st)
            && forall x | 0 < x < |fs.disk| && x != k - 1 :: c.disk[x] == fs.disk[x]
  {
    AllocatedIs(fs, n1st);
    AllocateParts(fs, n1st);
  }

  /** do_unlink clears one inode and resizes the root. */
  lemma RemovedDisk(fs: Fs, n1st: nat, path: seq<char>, x: nat)
    requires UnlinkLegal(fs, n1st, path) && Removes(fs, n1st, path)
    requires 0 < x < |fs.disk| && x + 1 != Lookup(fs, path)
    ensures var fs' := Unlinked(fs, n1st, path).0; |fs'.disk| == |fs.disk| && fs'.disk[x] == fs.disk[x]
  {
    FreedReady(fs, n1st, path);
  }

  lemma OpenInode(fs: Fs, n1st: nat, p: nat, path: seq<char>, flags: nat, k: nat)
    requires OpenLegal(fs, n1st, p, path, flags) && n1st > 0 && k in Taken(fs.inodeMap) && k != ROOT_INODE
    ensures var fs' := Opened(fs, n1st, p, path, flags).0;
            0 < k <= |fs.disk| == |fs'.disk| && fs'.disk[k - 1] == fs.disk[k - 1]
  {
    if MakesFile(fs, path, flags) {
      CreateKeeps(fs, n1st, path);
      MadeDisk(fs, n1st, path);
    } else {
      OldDisk(fs, n1st, p, path, flags);
    }
  }

  lemma OldDisk(fs: Fs, n1st: nat, p: nat, path: seq<char>, flags: nat)
    requires OpenLegal(fs, n1st, p, path, flags) && n1st > 0 && !MakesFile(fs, path, flags)
    ensures Opened(fs, n1st, p, path, flags).0.disk == fs.disk
  {
  }

  /** A request leaves every inode but the root as it is, unless it makes or removes it; a transfer may lengthen it. */
  lemma RequestKeepsInode(fs: Fs, n1st: nat, q: Request, k: nat)
    requires Legal(fs, n1st, q) && n1st > 0 && k in Taken(fs.inodeMap) && k != ROOT_INODE && k !in Ends(fs, n1st, q)
    ensures var fs' := Handled(fs, n1st, q);
            && 0 < k <= |fs.disk| == |fs'.disk|
            && var f := fs.disk[k - 1];
               fs'.disk[k - 1] == if Touches(fs, q, k)
                 then f.(size := Max(f.size, DescOf(fs, q.p, q.fd).pos + Count(fs, q))) else f
  {
    match q
    case Open(p, path, flags) => OpenInode(fs, n1st, p, path, flags, k);
    case Transfer(p, fd, write, len) => TransferInode(fs, n1st, q, k);
    case Unlink(path) => if Removes(fs, n1st, path) { RemovedDisk(fs, n1st, path, k - 1); }
    case _ =>
  }

  lemma TransferInode(fs: Fs, n1st: nat, q: Request, k: nat)
    requires q.Transfer? && Legal(fs, n1st, q) && n1st > 0 && k in Taken(fs.inodeMap) && k != ROOT_INODE
    ensures var fs' := Handled(fs, n1st, q);
            && 0 < k <= |fs.disk| == |fs'.disk|
            && var f := fs.disk[k - 1];
               fs'.disk[k - 1] == if Touches(fs, q, k)
                 then f.(size := Max(f.size, DescOf(fs, q.p, q.fd).pos + Count(fs, q))) else f
  {
    HeldCanDrop(fs.t, q.p, q.fd);
    if Transfers(fs, q) { ShiftedIs(fs, n1st, q.p, q.fd, Count(fs, q)); }
  }

  // ---------------------------------------------------------------- positions lie in their files

  /** A descriptor in use on a regular file stands in the file or at its end. */
  ghost predicate PosAt(t: Tables, d: nat)
    requires d < |t.descs|
  {
    var s := t.descs[d].inode;
    0 <= s < |t.cache| && t.cache[s].f.mode == I_REGULAR ==> t.descs[d].pos <= t.cache[s].f.size
  }

  ghost predicate PosOk(t: Tables) {
    forall d | 0 <= d < |t.descs| :: PosAt(t, d)
  }

  /** A descriptor in use after a request is new, or stands where it stood, or moved over the bytes transferred. */
  lemma RequestPositions(fs: Fs, n1st: nat, q: Request, d: nat)
    requires Legal(fs, n1st, q) && n1st > 0 && d < |fs.t.descs|
    ensures var t, t' := fs.t, Handled(fs, n1st, q).t;
            && |t'.descs| == |t.descs|
            && (t'.descs[d].inode == NIL || t'.descs[d].pos == 0
                || (t'.descs[d].inode == t.descs[d].inode
                    && t'.descs[d].pos == t.descs[d].pos
                       + if Transfers(fs, q) && t.filp[q.p][q.fd] == d then Count(fs, q) else 0))
  {
    match q
    case Open(p, path, flags) => OpenPositions(fs, n1st, p, path, flags, d);
    case Close(p, fd) => HeldCanDrop(fs.t, p, fd);
    case Transfer(p, fd, write, len) =>
      HeldCanDrop(fs.t, p, fd);
      if Transfers(fs, q) { ShiftedIs(fs, n1st, p, fd, Count(fs, q)); }
    case Fork(child, parent) =>
      ParentForkOk(fs.t, child, parent);
      ForkedSameBut(fs.t, child, fs.t.filp[parent], |fs.t.filp[parent]|);
    case Exit(p) => ExitedSameBut(fs.t, p, 0);
    case Unlink(path) => if Removes(fs, n1st, path) { RemovedIs(fs, n1st, path); }
    case Resume(_, _) =>
  }

  lemma OpenPositions(fs: Fs, n1st: nat, p: nat, path: seq<char>, flags: nat, d: nat)
    requires OpenLegal(fs, n1st, p, path, flags) && n1st > 0 && d < |fs.t.descs|
    ensures var t' := Opened(fs, n1st, p, path, flags).0.t;
            |t'.descs| == |fs.t.descs| && (t'.descs[d] == fs.t.descs[d] || t'.descs[d].pos == 0)
  {
    if MakesFile(fs, path, flags) { CreateKeeps(fs, n1st, path); }
  }

  /** A slot that stays in use keeps its inode in use. */
  lemma StaysTaken(fs: Fs, n1st: nat, q: Request, d: nat)
    requires Legal(fs, n1st, q) && n1st > 0 && d < |fs.t.descs| && fs.t.descs[d].inode != NIL
    requires var t' := Handled(fs, n1st, q).t; |t'.descs| == |fs.t.descs| && t'.descs[d].inode == fs.t.descs[d].inode
    ensures var s := fs.t.descs[d].inode; var fs' := Handled(fs, n1st, q);
            && FsOk(fs', n1st) && 0 <= s < |fs.t.cache| == |fs'.t.cache|
            && fs.t.cache[s].cnt > 0 && fs'.t.cache[s].cnt > 0
            && fs'.t.cache[s].num == fs.t.cache[s].num && fs.t.cache[s].num !in Ends(fs, n1st, q)
  {
    RequestKeeps(fs, n1st, q);
    DescLive(fs.t, d);
    DescLive(Handled(fs, n1st, q).t, d);
    RequestKeepsSlots(fs, n1st, q);
    RequestTaken(fs, n1st, q);
  }

  lemma CachedInode(fs: Fs, n1st: nat, s: nat)
    requires FsOk(fs, n1st) && s < NR_INODE && fs.t.cache[s].cnt > 0
    ensures var k := fs.t.cache[s].num;
            && k in Taken(fs.inodeMap) && 0 < k <= |fs.disk| && fs.t.cache[s].f == fs.disk[k - 1]
            && (k == ROOT_INODE ==> fs.t.cache[s].f.mode == I_DIRECTORY)
  {
    CachedMode(fs, n1st, s);
  }

  /** The inode of a descriptor that stays in use keeps its size unless a transfer lengthens it. */
  lemma HeldInode(fs: Fs, n1st: nat, q: Request, d: nat)
    requires Legal(fs, n1st, q) && n1st > 0 && d < |fs.t.descs| && fs.t.descs[d].inode != NIL
    requires var t' := Handled(fs, n1st, q).t; |t'.descs| == |fs.t.descs| && t'.descs[d].inode == fs.t.descs[d].inode
    ensures var s := fs.t.descs[d].inode; var t' := Handled(fs, n1st, q).t;
            && 0 <= s < |fs.t.cache| == |t'.cache|
            && var k, f := fs.t.cache[s].num, fs.t.cache[s].f;
               if k == ROOT_INODE then t'.cache[s].f.mode == I_DIRECTORY
               else t'.cache[s].f == if Touches(fs, q, k)
                 then f.(size := Max(f.size, DescOf(fs, q.p, q.fd).pos + Count(fs, q))) else f
  {
    StaysTaken(fs, n1st, q, d);
    var s := fs.t.descs[d].inode;
    CachedInode(fs, n1st, s);
    CachedInode(Handled(fs, n1st, q), n1st, s);
    if fs.t.cache[s].num != ROOT_INODE { RequestKeepsInode(fs, n1st, q, fs.t.cache[s].num); }
  }

  lemma PosStep(fs: Fs, n1st: nat, q: Request)
    requires Legal(fs, n1st, q) && n1st > 0 && PosOk(fs.t)
    ensures PosOk(Handled(fs, n1st, q).t)
  {
    var t' := Handled(fs, n1st, q).t;
    forall d | 0 <= d < |t'.descs| ensures PosAt(t', d) {
      PosStepAt(fs, n1st, q, d);
    }
  }

  lemma PosStepAt(fs: Fs, n1st: nat, q: Request, d: nat)
    requires Legal(fs, n1st, q) && n1st > 0 && PosOk(fs.t) && d < |Handled(fs, n1st, q).t.descs|
    ensures PosAt(Handled(fs, n1st, q).t, d)
  {
    SameDescs(fs, n1st, q);
    RequestPositions(fs, n1st, q, d);
    var t' := Handled(fs, n1st, q).t;
    if t'.descs[d].inode != NIL && t'.descs[d].pos != 0 {
      assert PosAt(fs.t, d);
      HeldInode(fs, n1st, q, d);
    }
  }

  lemma SameDescs(fs: Fs, n1st: nat, q: Request)
    requires Legal(fs, n1st, q) && n1st > 0
    ensures |Handled(fs, n1st, q).t.descs| == |fs.t.descs|
  {
    RequestKeepsSlots(fs, n1st, q);
  }

  lemma {:induction false} RunPositions(run: seq<Fs>, reqs: seq<Request>, n1st: nat, i: nat)
    requires IsRun(run, reqs, n1st) && i < |run|
    ensures PosOk(run[i].t)
  {
    if i > 0 {
      RunPositions(run, reqs, n1st, i - 1);
      assert StepAt(run, reqs, n1st, i - 1);
      PosStep(run[i - 1], n1st, reqs[i - 1]);
    }
  }

  // ---------------------------------------------------------------- the contents by the record of the run

  /** The bytes of file k after q when they were c before. */
  ghost function ContentAfter(fs: Fs, n1st: nat, q: Request, data: seq<byte>, k: nat, c: seq<byte>): seq<byte> {
    if Legal(fs, n1st, q) && k in Makes(fs, n1st, q) then []
    else if Touches(fs, q, k) && q.write && DescOf(fs, q.p, q.fd).pos <= |c| && q.len <= |data|
    then FileIo.Overwritten(c, DescOf(fs, q.p, q.fd).pos, data[..q.len])
    else c
  }

  /** The bytes of file k by the record of the first i requests: nothing when it is made, then every WRITE to it. */
  ghost function Content(run: seq<Fs>, reqs: seq<Request>, n1st: nat, datas: seq<seq<byte>>, i: nat, k: nat): seq<byte>
    requires i <= |reqs| == |datas| < |run|
  {
    if i == 0 then []
    else ContentAfter(run[i - 1], n1st, reqs[i - 1], datas[i - 1], k, Content(run, reqs, n1st, datas, i - 1, k))
  }

  /** A transfer stays inside the file (READ) or the extent (WRITE). */
  ghost predicate Inside(fs: Fs, q: Request) {
    Transfers(fs, q) ==> DescOf(fs, q.p, q.fd).pos + q.len <= Bound(Target(fs, q), q.write)
  }

  ghost predicate InsideAt(run: seq<Fs>, reqs: seq<Request>, i: nat) {
    i < |run| && i < |reqs| && Inside(run[i], reqs[i])
  }

  /** On `disk` a file with inode f fits its extent and holds c. */
  ghost predicate HoldsFile(disk: seq<byte>, f: Fields, c: seq<byte>) {
    && |c| == f.size <= SECTOR_SIZE * f.nrSects
    && (f.size > 0 ==> SECTOR_SIZE * f.start + f.size <= |disk| && FileIo.FileBytes(disk, f.start, f.size) == c)
  }

  ghost predicate HoldsContent(fs: Fs, disk: seq<byte>, k: nat, c: seq<byte>) {
    0 < k <= |fs.disk| && HoldsFile(disk, fs.disk[k - 1], c)
  }

  lemma InsideCount(fs: Fs, q: Request)
    requires Transfers(fs, q) && Inside(fs, q)
    ensures Count(fs, q) == q.len
  {
    InsideMoves(DescOf(fs, q.p, q.fd).pos, q.len, Target(fs, q), q.write);
  }

  /** The inode that a transfer goes to is in use, and a WRITE goes to a regular file. */
  lemma TargetOwned(fs: Fs, n1st: nat, q: Request)
    requires Legal(fs, n1st, q) && Transfers(fs, q)
    ensures var k := fs.t.cache[DescOf(fs, q.p, q.fd).inode].num;
            && k in Taken(fs.inodeMap) && 0 < k <= |fs.disk| && fs.disk[k - 1] == Target(fs, q)
            && (k != ROOT_INODE <==> Target(fs, q).mode == I_REGULAR)
            && (q.write ==> k != ROOT_INODE && Owns(fs.disk, Taken(fs.inodeMap), k, n1st))
  {
    CachedMode(fs, n1st, DescOf(fs, q.p, q.fd).inode);
  }

  /** A new file is empty. */
  lemma MadeEmpty(fs: Fs, n1st: nat, q: Request, disk: seq<byte>, k: nat)
    requires Legal(fs, n1st, q) && n1st > 0 && k in Makes(fs, n1st, q)
    ensures HoldsContent(Handled(fs, n1st, q), disk, k, [])
  {
    CreateKeeps(fs, n1st, q.path);
    MadeDisk(fs, n1st, q.path);
    assert k > 0 by { RequestTaken(fs, n1st, q); NewIsUncached(fs, n1st); }
  }

  lemma WrittenHolds(disk: seq<byte>, f: Fields, c: seq<byte>, pos: nat, data: seq<byte>)
    requires HoldsFile(disk, f, c) && pos <= f.size && pos + |data| <= SECTOR_SIZE * f.nrSects
    requires SECTOR_SIZE * f.start + pos + |data| <= |disk|
    ensures HoldsFile(FileIo.Splice(disk, SECTOR_SIZE * f.start + pos, data),
            f.(size := Max(f.size, pos + |data|)), FileIo.Overwritten(c, pos, data))
  {
    if f.size > 0 {
      FileIo.WrittenBytes(disk, f.start, f.size, pos, data);
    } else {
      FileIo.SpliceAt(disk, SECTOR_SIZE * f.start, data);
    }
  }

  /** A file that the request transfers to or from. */
  lemma TouchedContent(fs: Fs, n1st: nat, q: Request, data: seq<byte>, disk: seq<byte>, k: nat, c: seq<byte>)
    requires Legal(fs, n1st, q) && n1st > 0 && Fits(fs, q, data, disk) && Inside(fs, q) && Touches(fs, q, k)
    requires k != ROOT_INODE && HoldsContent(fs, disk, k, c) && PosOk(fs.t)
    ensures HoldsContent(Handled(fs, n1st, q), DiskAfter(fs, q, data, disk), k, ContentAfter(fs, n1st, q, data, k, c))
  {
    TargetOwned(fs, n1st, q);
    InsideCount(fs, q);
    RequestKeepsInode(fs, n1st, q, k);
    AfterIs(fs, q, data, disk);
    TargetHolds(fs, q, data, disk, DiskAfter(fs, q, data, disk), c);
  }

  lemma TargetHolds(fs: Fs, q: Request, data: seq<byte>, disk: seq<byte>, disk': seq<byte>, c: seq<byte>)
    requires Transfers(fs, q) && Inside(fs, q) && PosOk(fs.t) && q.len <= |data|
    requires HoldsFile(disk, Target(fs, q), c) && Target(fs, q).mode == I_REGULAR
    requires var at := SECTOR_SIZE * Target(fs, q).start + DescOf(fs, q.p, q.fd).pos;
             at + q.len <= |disk| && disk' == if q.write then FileIo.Splice(disk, at, data[..q.len]) else disk
    ensures var f, pos := Target(fs, q), DescOf(fs, q.p, q.fd).pos;
            pos <= |c| && HoldsFile(disk', f.(size := Max(f.size, pos + q.len)),
                            if q.write then FileIo.Overwritten(c, pos, data[..q.len]) else c)
  {
    PosInFile(fs, q);
    var f, pos, moved := Target(fs, q), DescOf(fs, q.p, q.fd).pos, data[..q.len];
    MovedHolds(disk, disk', f, c, if q.write then FileIo.Overwritten(c, pos, moved) else c, pos, q.len, q.write, moved);
  }

  lemma PosInFile(fs: Fs, q: Request)
    requires Transfers(fs, q) && PosOk(fs.t) && Target(fs, q).mode == I_REGULAR
    ensures DescOf(fs, q.p, q.fd).pos <= Target(fs, q).size
  {
    assert PosAt(fs.t, fs.t.filp[q.p][q.fd]);
  }

  lemma AfterIs(fs: Fs, q: Request, data: seq<byte>, disk: seq<byte>)
    requires Fits(fs, q, data, disk) && Transfers(fs, q) && Count(fs, q) == q.len
    ensures var f, pos := Target(fs, q), DescOf(fs, q.p, q.fd).pos;
            SECTOR_SIZE * f.start + pos + q.len <= |disk| && q.len <= |data|
            && DiskAfter(fs, q, data, disk)
               == if q.write then FileIo.Splice(disk, SECTOR_SIZE * f.start + pos, data[..q.len]) else disk
  {
  }

  /** len bytes written to a file, or read; disk' and c' are the disk and the contents then. */
  lemma MovedHolds(disk: seq<byte>, disk': seq<byte>, f: Fields, c: seq<byte>, c': seq<byte>, pos: nat, len: nat,
      write: bool, data: seq<byte>)
    requires HoldsFile(disk, f, c) && pos <= f.size && pos + len <= Bound(f, write) && len == |data|
    requires SECTOR_SIZE * f.start + pos + len <= |disk|
    requires disk' == if write then FileIo.Splice(disk, SECTOR_SIZE * f.start + pos, data) else disk
    requires pos <= |c| && c' == if write then FileIo.Overwritten(c, pos, data) else c
    ensures HoldsFile(disk', f.(size := Max(f.size, pos + len)), c')
  {
    if write { WrittenHolds(disk, f, c, pos, data); }
  }

  /** Any other file. */
  lemma OtherContent(fs: Fs, n1st: nat, q: Request, data: seq<byte>, disk: seq<byte>, k: nat, c: seq<byte>)
    requires Legal(fs, n1st, q) && n1st > 0 && Fits(fs, q, data, disk) && Inside(fs, q) && !Touches(fs, q, k)
    requires k !in Makes(fs, n1st, q) && k !in Ends(fs, n1st, q) && HoldsContent(fs, disk, k, c)
    requires Owns(fs.disk, Taken(fs.inodeMap), k, n1st) && k != ROOT_INODE
    ensures HoldsContent(Handled(fs, n1st, q), DiskAfter(fs, q, data, disk), k, ContentAfter(fs, n1st, q, data, k, c))
  {
    RequestKeepsInode(fs, n1st, q, k);
    var f := fs.disk[k - 1];
    if Transfers(fs, q) && q.write && f.size > 0 {
      TargetOwned(fs, n1st, q);
      InsideCount(fs, q);
      ExtentsDisjoint(fs, n1st, k, fs.t.cache[DescOf(fs, q.p, q.fd).inode].num);
      FileIo.Untouched(disk, From(fs, q), data[..q.len], f.start, f.size);
    }
  }

  /** A file in use before and after the request. */
  lemma KeptContent(fs: Fs, n1st: nat, q: Request, data: seq<byte>, disk: seq<byte>, k: nat, c: seq<byte>)
    requires Legal(fs, n1st, q) && n1st > 0 && Fits(fs, q, data, disk) && Inside(fs, q) && PosOk(fs.t)
    requires k !in Makes(fs, n1st, q) && k !in Ends(fs, n1st, q) && HoldsContent(fs, disk, k, c)
    requires Owns(fs.disk, Taken(fs.inodeMap), k, n1st) && k != ROOT_INODE
    ensures HoldsContent(Handled(fs, n1st, q), DiskAfter(fs, q, data, disk), k, ContentAfter(fs, n1st, q, data, k, c))
  {
    if Touches(fs, q, k) {
      TouchedContent(fs, n1st, q, data, disk, k, c);
    } else {
      OtherContent(fs, n1st, q, data, disk, k, c);
    }
  }

  /** A file that a request did not make was a file before it. */
  lemma OwnedBefore(fs: Fs, n1st: nat, q: Request, k: nat)
    requires Legal(fs, n1st, q) && n1st > 0 && k != ROOT_INODE && k !in Makes(fs, n1st, q)
    requires Owns(Handled(fs, n1st, q).disk, Taken(Handled(fs, n1st, q).inodeMap), k, n1st)
    ensures Owns(fs.disk, Taken(fs.inodeMap), k, n1st) && k !in Ends(fs, n1st, q)
  {
    RequestTaken(fs, n1st, q);
    RequestKeepsInode(fs, n1st, q, k);
  }

  /** On the file system of mkfs nothing but the root directory has an extent. */
  lemma NoFilesAtFirst(fs: Fs, n1st: nat, k: nat)
    requires Initial(fs, n1st) && k != ROOT_INODE
    ensures !Owns(fs.disk, Taken(fs.inodeMap), k, n1st)
  {
    InitialOk(fs, n1st);
    if k in Taken(fs.inodeMap) { assert fs.disk[k - 1] == MkfsInode(k, n1st); }
  }

  /** Over every run whose transfers stay inside their files and extents, each file holds exactly what was written to
      it since it was made. */
  lemma {:induction false} ContentsAreWrites(run: seq<Fs>, reqs: seq<Request>, n1st: nat, datas: seq<seq<byte>>,
      disks: seq<seq<byte>>, i: nat, k: nat)
    requires IsRun(run, reqs, n1st) && DiskRun(run, reqs, datas, disks) && i < |run|
    requires forall j | 0 <= j < i :: InsideAt(run, reqs, j)
    requires Owns(run[i].disk, Taken(run[i].inodeMap), k, n1st) && k != ROOT_INODE
    ensures HoldsContent(run[i], disks[i], k, Content(run, reqs, n1st, datas, i, k))
  {
    if i == 0 {
      NoFilesAtFirst(run[0], n1st, k);
    } else {
      var fs, q := run[i - 1], reqs[i - 1];
      assert StepAt(run, reqs, n1st, i - 1) && DiskStep(run, reqs, datas, disks, i - 1) && InsideAt(run, reqs, i - 1);
      if k in Makes(fs, n1st, q) {
        MadeEmpty(fs, n1st, q, disks[i], k);
      } else {
        OwnedBefore(fs, n1st, q, k);
        ContentsAreWrites(run, reqs, n1st, datas, disks, i - 1, k);
        RunPositions(run, reqs, n1st, i - 1);
        KeptContent(fs, n1st, q, datas[i - 1], disks[i - 1], k, Content(run, reqs, n1st, datas, i - 1, k));
      }
    }
  }

  /** ... and a READ of a file puts that slice of it into the caller's buffer. */
  lemma ReadsReturnWrites(run: seq<Fs>, reqs: seq<Request>, n1st: nat, datas: seq<seq<byte>>, disks: seq<seq<byte>>,
      i: nat, k: nat)
    requires IsRun(run, reqs, n1st) && DiskRun(run, reqs, datas, disks) && i < |reqs|
    requires forall j | 0 <= j <= i :: InsideAt(run, reqs, j)
    requires Touches(run[i], reqs[i], k) && !reqs[i].write && k != ROOT_INODE
    ensures Fits(run[i], reqs[i], datas[i], disks[i])
    ensures var c := Content(run, reqs, n1st, datas, i, k); var pos := DescOf(run[i], reqs[i].p, reqs[i].fd).pos;
            pos + reqs[i].len <= |c| && reqs[i].len <= |datas[i]|
            && BufferAfter(run[i], reqs[i], datas[i], disks[i]) == c[pos..pos + reqs[i].len] + datas[i][reqs[i].len..]
  {
    TargetContent(run, reqs, n1st, datas, disks, i, k);
    ReadIs(run[i], reqs[i], datas[i], disks[i], Content(run, reqs, n1st, datas, i, k));
  }

  lemma ReadIs(fs: Fs, q: Request, data: seq<byte>, disk: seq<byte>, c: seq<byte>)
    requires Transfers(fs, q) && Fits(fs, q, data, disk) && Count(fs, q) == q.len && !q.write
    requires HoldsFile(disk, Target(fs, q), c) && DescOf(fs, q.p, q.fd).pos + q.len <= Target(fs, q).size
    ensures var pos := DescOf(fs, q.p, q.fd).pos;
            pos + q.len <= |c| && q.len <= |data|
            && BufferAfter(fs, q, data, disk) == c[pos..pos + q.len] + data[q.len..]
  {
    SliceRead(disk, Target(fs, q), c, DescOf(fs, q.p, q.fd).pos, q.len, data);
  }

  lemma TargetContent(run: seq<Fs>, reqs: seq<Request>, n1st: nat, datas: seq<seq<byte>>, disks: seq<seq<byte>>,
      i: nat, k: nat)
    requires IsRun(run, reqs, n1st) && DiskRun(run, reqs, datas, disks) && i < |reqs|
    requires forall j | 0 <= j <= i :: InsideAt(run, reqs, j)
    requires Touches(run[i], reqs[i], k) && !reqs[i].write && k != ROOT_INODE
    ensures Fits(run[i], reqs[i], datas[i], disks[i]) && Count(run[i], reqs[i]) == reqs[i].len
    ensures HoldsFile(disks[i], Target(run[i], reqs[i]), Content(run, reqs, n1st, datas, i, k))
    ensures DescOf(run[i], reqs[i].p, reqs[i].fd).pos + reqs[i].len <= Target(run[i], reqs[i]).size
  {
    assert StepAt(run, reqs, n1st, i) && DiskStep(run, reqs, datas, disks, i) && InsideAt(run, reqs, i);
    TargetOwned(run[i], n1st, reqs[i]);
    RegularOwned(run[i], n1st, k);
    ContentsAreWrites(run, reqs, n1st, datas, disks, i, k);
    InsideCount(run[i], reqs[i]);
  }

  lemma RegularOwned(fs: Fs, n1st: nat, k: nat)
    requires FsOk(fs, n1st) && k in Taken(fs.inodeMap) && 0 < k <= |fs.disk| && fs.disk[k - 1].mode == I_REGULAR
    ensures Owns(fs.disk, Taken(fs.inodeMap), k, n1st)
  {
    assert InodeOk(k, fs.disk[k - 1], n1st);
  }

  lemma SliceRead(disk: seq<byte>, f: Fields, c: seq<byte>, pos: nat, n: nat, data: seq<byte>)
    requires HoldsFile(disk, f, c) && pos + n <= f.size && n <= |data| && SECTOR_SIZE * f.start + pos + n <= |disk|
    ensures var at := SECTOR_SIZE * f.start + pos;
            FileIo.Splice(data, 0, disk[at..at + n]) == c[pos..pos + n] + data[n..]
  {
    var at := SECTOR_SIZE * f.start + pos;
    if f.size > 0 {
      FileIo.SliceOfSlice(disk, SECTOR_SIZE * f.start, SECTOR_SIZE * f.start + f.size, pos, pos + n);
    } else {
      assert n == 0 && |disk[at..at + n]| == |c[pos..pos + n]| == 0;
    }
  }

  // ---------------------------------------------------------------- what no transfer reaches

  /** Over every run, also one with transfers over their bounds, the bytes of the disk before the second extent, that is
      the maps, the inodes and the root directory, are changed by no transfer. */
  lemma {:induction false} RunSparesServer(run: seq<Fs>, reqs: seq<Request>, n1st: nat, datas: seq<seq<byte>>,
      disks: seq<seq<byte>>, i: nat)
    requires IsRun(run, reqs, n1st) && DiskRun(run, reqs, datas, disks) && i < |run|
    ensures |disks[i]| == |disks[0]|
    ensures var n := SECTOR_SIZE * (n1st + NR_DEFAULT_FILE_SECTS);
            n <= |disks[0]| ==> disks[i][..n] == disks[0][..n]
  {
    if i > 0 {
      RunSparesServer(run, reqs, n1st, datas, disks, i - 1);
      assert StepAt(run, reqs, n1st, i - 1) && DiskStep(run, reqs, datas, disks, i - 1);
      SparesServer(run[i - 1], n1st, reqs[i - 1], datas[i - 1], disks[i - 1]);
    }
  }

  lemma SparesServer(fs: Fs, n1st: nat, q: Request, data: seq<byte>, disk: seq<byte>)
    requires Legal(fs, n1st, q) && Fits(fs, q, data, disk)
    ensures var n := SECTOR_SIZE * (n1st + NR_DEFAULT_FILE_SECTS);
            n <= |disk| ==> DiskAfter(fs, q, data, disk)[..n] == disk[..n]
  {
    if Transfers(fs, q) && q.write {
      TargetOwned(fs, n1st, q);
      ExtentsDisjoint(fs, n1st, fs.t.cache[DescOf(fs, q.p, q.fd).inode].num, ROOT_INODE);
      var n := SECTOR_SIZE * (n1st + NR_DEFAULT_FILE_SECTS);
      assert From(fs, q) >= n;
      FileIo.SpliceAt(disk, From(fs, q), data[..Count(fs, q)]);
    }
  }
}
