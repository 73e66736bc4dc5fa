/** Whole runs of the file server, from the file system that mkfs writes. */
module FsRuns {
  import opened Base
  import opened Bits
  import opened Extents
  import opened InodeCache
  import opened Directory
  import opened Refs
  import opened Files
  import opened FileOps
  import opened Requests
  import FileIo

  /** The messages that task_fs has a case for, Resume being RESUME_PROC from the terminal task; LSEEK is none. */
  datatype Request =
    | Open(p: nat, path: seq<char>, flags: nat)
    | Close(p: nat, fd: nat)
    | Transfer(p: nat, fd: nat, write: bool, len: nat)
    | Fork(child: nat, parent: nat)
    | Exit(p: nat)
    | Unlink(path: seq<char>)
    | Resume(p: nat, cnt: nat)

  ghost predicate Legal(fs: Fs, n1st: nat, q: Request) {
    match q
    case Open(p, path, flags) => OpenLegal(fs, n1st, p, path, flags)
    case Close(p, fd) => CloseLegal(fs, n1st, p, fd)
    case Transfer(p, fd, write, len) => TransferLegal(fs, n1st, p, fd, write, len)
    case Fork(child, parent) => ForkLegal(fs, n1st, child, parent)
    case Exit(p) => FsOk(fs, n1st) && p < |fs.t.filp|
    case Unlink(path) => UnlinkLegal(fs, n1st, path)
    case Resume(_, _) => FsOk(fs, n1st)
  }

  ghost function Handled(fs: Fs, n1st: nat, q: Request): Fs
    requires Legal(fs, n1st, q) && n1st > 0
  {
    match q
    case Open(p, path, flags) => Opened(fs, n1st, p, path, flags).0
    case Close(p, fd) => Closed(fs, n1st, p, fd)
    case Transfer(p, fd, write, len) => Transferred(fs, n1st, p, fd, write, len)
    case Fork(child, parent) => ForkedFs(fs, n1st, child, parent)
    case Exit(p) => fs.(t := Exited(fs.t, p, 0))
    case Unlink(path) => Unlinked(fs, n1st, path).0
    case Resume(_, _) => fs
  }

  /** The cache slot in which a request leaves a reference that nobody holds, or NIL. */
  ghost function Leaves(fs: Fs, n1st: nat, q: Request): int
    requires Legal(fs, n1st, q)
  {
    if q.Unlink? then LeaksAt(fs, n1st, q.path) else NIL
  }

  /** Every request keeps the invariant; only a refused unlink leaves a reference behind. */
  lemma RequestKeeps(fs: Fs, n1st: nat, q: Request)
    requires Legal(fs, n1st, q) && n1st > 0
    ensures FsOk(Handled(fs, n1st, q), n1st)
    ensures forall s | 0 <= s < NR_INODE ::
              Leak(Handled(fs, n1st, q).t, s) == Leak(fs.t, s) + if s == Leaves(fs, n1st, q) then 1 else 0
  {
    match q
    case Open(p, path, flags) => OpenKeeps(fs, n1st, p, path, flags);
    case Close(p, fd) => CloseKeeps(fs, n1st, p, fd);
    case Transfer(p, fd, write, len) => TransferKeeps(fs, n1st, p, fd, write, len);
    case Fork(child, parent) => ForkKeepsFs(fs, n1st, child, parent);
    case Exit(p) => ExitKeepsFs(fs, n1st, p);
    case Unlink(path) => UnlinkKeeps(fs, n1st, path); UnlinkLeaks(fs, n1st, path);
    case Resume(_, _) =>
  }

  // ---------------------------------------------------------------- the state that mkfs and init_fs leave

  /** MAKE_DEV(DEV_CHAR_TTY, 0) */
  const DEV_TTY0 := 256 * DEV_CHAR_TTY
  const NR_FILES := 64
  const NR_FILE_DESC := 64

  function TtyName(i: nat): seq<char>
    requires i < 3
  {
    "dev_tty" + ["012"[i]]
  }

  /** The inodes: the root, the three terminals, nothing else. */
  function MkfsInode(k: nat, n1st: nat): Fields {
    if k == ROOT_INODE then Fields(I_DIRECTORY, 4 * DIR_ENTRY_SIZE, n1st, NR_DEFAULT_FILE_SECTS)
    else if 2 <= k <= 4 then Fields(I_CHAR_SPECIAL, 0, DEV_TTY0 + k - 2, 0)
    else BLANK
  }

  function MkfsEntry(i: nat): Entry {
    if i == 0 then Entry(ROOT_INODE, Padded("."))
    else if i < 4 then Entry(i + 1, Padded(TtyName(i - 1)))
    else ZERO_ENTRY
  }

  ghost predicate Initial(fs: Fs, n1st: nat) {
    && (forall p | 0 <= p < |fs.t.filp| ::
         |fs.t.filp[p]| == NR_FILES && forall fd | 0 <= fd < NR_FILES :: fs.t.filp[p][fd] == NIL)
    && |fs.t.descs| == NR_FILE_DESC && (forall d | 0 <= d < NR_FILE_DESC :: fs.t.descs[d] == Desc(0, 0, 0, NIL))
    && |fs.t.cache| == NR_INODE
    && (forall s | 0 <= s < NR_INODE ::
          fs.t.cache[s] == if s == ROOT_SLOT then Inode(ROOT_INODE, 1, MkfsInode(1, n1st)) else Inode(0, 0, BLANK))
    && |fs.disk| == NR_INODES && (forall k | 0 < k <= INODES_PER_SECTOR :: fs.disk[k - 1] == MkfsInode(k, n1st))
    && |fs.inodeMap| == NR_INODES && (forall k | 0 <= k < NR_INODES :: fs.inodeMap[k] <==> k < 5)
    && |fs.sectorMap| >= NR_INODES
    && (forall b | 0 <= b < |fs.sectorMap| :: fs.sectorMap[b] <==> b < 1 + NR_DEFAULT_FILE_SECTS)
    && |fs.slots| == DIR_SLOTS && (forall i | 0 <= i < DIR_SLOTS :: fs.slots[i] == MkfsEntry(i))
  }

  lemma MkfsNames(i: nat, j: nat)
    requires i < j < 4
    ensures MkfsEntry(i).name != MkfsEntry(j).name
  {
    if i == 0 {
      assert MkfsEntry(0).name[0] == '.' && MkfsEntry(j).name[0] == 'd';
    } else {
      assert MkfsEntry(i).name[7] == "012"[i - 1] && MkfsEntry(j).name[7] == "012"[j - 1];
    }
  }

  lemma MkfsDir(slots: seq<Entry>)
    requires |slots| == DIR_SLOTS && forall i | 0 <= i < DIR_SLOTS :: slots[i] == MkfsEntry(i)
    ensures DirOk(slots, 4) && Used(slots) == {1, 2, 3, 4}
  {
    forall i | LiveAt(slots, i) ensures i < 4 && HasName(slots, i) {
      var name := if i == 0 then "." else TtyName(i - 1);
      assert NamedAt(slots, i, name);
    }
    forall i, j | LiveAt(slots, i) && LiveAt(slots, j) && i != j
      ensures slots[i].name != slots[j].name && slots[i].inodeNr != slots[j].inodeNr
    {
      if i < j { MkfsNames(i, j); } else { MkfsNames(j, i); }
    }
    MkfsUsed(slots);
  }

  lemma UsedAt(slots: seq<Entry>, i: nat)
    requires i < 4 <= |slots| && slots[i] == MkfsEntry(i)
    ensures i + 1 in Used(slots)
  {
    assert LiveAt(slots, i);
  }

  lemma MkfsUsed(slots: seq<Entry>)
    requires |slots| == DIR_SLOTS && forall i | 0 <= i < DIR_SLOTS :: slots[i] == MkfsEntry(i)
    ensures Used(slots) == {1, 2, 3, 4}
  {
    UsedAt(slots, 0);
    UsedAt(slots, 1);
    UsedAt(slots, 2);
    UsedAt(slots, 3);
    forall x | x in Used(slots) ensures x in {1, 2, 3, 4} {
      var i :| 0 <= i < |slots| && LiveAt(slots, i) && slots[i].inodeNr == x;
      assert slots[i] == MkfsEntry(i);
    }
  }

  lemma {:induction false} NothingHeld(filp: seq<seq<int>>, d: nat)
    requires forall p | 0 <= p < |filp| :: forall fd | 0 <= fd < |filp[p]| :: filp[p][fd] == NIL
    ensures RefCount(filp, d) == 0
  {
    RefCountPositive(filp, d);
  }

  lemma InitialRefs(fs: Fs, n1st: nat)
    requires Initial(fs, n1st)
    ensures RefsOk(fs.t) && forall s | 0 <= s < NR_INODE :: Leak(fs.t, s) == 0
  {
    forall d | 0 <= d < NR_FILE_DESC ensures DescOk(fs.t.filp, fs.t.descs, d) {
      NothingHeld(fs.t.filp, d);
    }
    forall s | 0 <= s < NR_INODE ensures Leak(fs.t, s) == 0 {
      InodeRefsPositive(fs.t.descs, s);
    }
  }

  lemma InitialSpace(fs: Fs, n1st: nat)
    requires Initial(fs, n1st)
    ensures SpaceOk(fs.sectorMap, fs.disk, {1, 2, 3, 4}, n1st)
  {
    var used: set<nat> := {1, 2, 3, 4};
    MkfsMatches(fs.sectorMap);
    forall k | Owns(fs.disk, used, k, n1st) ensures k == 1 {
      assert fs.disk[k - 1] == MkfsInode(k, n1st);
    }
    assert fs.disk[1 - 1] == MkfsInode(1, n1st);
    assert Owns(fs.disk, used, 1, n1st) && StartBit(fs.disk, used, 1, n1st) == 1;
    assert Starts(fs.disk, used, n1st) == {1};
    forall k | k in used ensures InodeOk(k, fs.disk[k - 1], n1st) {
      assert fs.disk[k - 1] == MkfsInode(k, n1st);
    }
  }

  lemma InitialCache(fs: Fs, n1st: nat)
    requires Initial(fs, n1st)
    ensures CacheOk(fs.t.cache, fs.disk) && NumsOk(fs.inodeMap, fs.t.cache, {1, 2, 3, 4})
    ensures fs.t.cache[ROOT_SLOT].f.size == 4 * DIR_ENTRY_SIZE
  {
    assert fs.t.cache[ROOT_SLOT] == Inode(ROOT_INODE, 1, MkfsInode(1, n1st)) && fs.disk[1 - 1] == MkfsInode(1, n1st);
  }

  lemma InitialOk(fs: Fs, n1st: nat)
    requires Initial(fs, n1st)
    ensures FsOk(fs, n1st) && Named(fs) && Taken(fs.inodeMap) == {1, 2, 3, 4}
    ensures forall s | 0 <= s < NR_INODE :: Leak(fs.t, s) == 0
  {
    InitialRefs(fs, n1st);
    InitialSpace(fs, n1st);
    InitialCache(fs, n1st);
    TakenIs(fs.inodeMap, fs.t.cache, {1, 2, 3, 4});
    MkfsDir(fs.slots);
    assert Entries(fs.t.cache) == 4;
    UsedHold(fs.slots, 4);
  }

  /** A directory in shape holds different numbers. */
  lemma UsedHold(slots: seq<Entry>, n: nat)
    requires DirOk(slots, n)
    ensures SlotsHold(slots, Used(slots))
  {
  }

  // ---------------------------------------------------------------- runs

  ghost predicate Step(fs: Fs, n1st: nat, q: Request, fs': Fs) {
    n1st > 0 && Legal(fs, n1st, q) && fs' == Handled(fs, n1st, q)
  }

  ghost predicate StepAt(run: seq<Fs>, reqs: seq<Request>, n1st: nat, i: nat)
    requires |run| == |reqs| + 1 && i < |reqs|
  {
    Step(run[i], n1st, reqs[i], run[i + 1])
  }

  ghost predicate IsRun(run: seq<Fs>, reqs: seq<Request>, n1st: nat) {
    && |run| == |reqs| + 1 && n1st > 0 && Initial(run[0], n1st)
    && forall i | 0 <= i < |reqs| :: StepAt(run, reqs, n1st, i)
  }

  lemma {:induction false} RunOk(run: seq<Fs>, reqs: seq<Request>, n1st: nat, i: nat)
    requires IsRun(run, reqs, n1st) && i < |run|
    ensures FsOk(run[i], n1st)
  {
    if i == 0 {
      InitialOk(run[0], n1st);
    } else {
      assert StepAt(run, reqs, n1st, i - 1);
      RequestKeeps(run[i - 1], n1st, reqs[i - 1]);
    }
  }

  /** Request i is an unlink refused at slot s. */
  ghost predicate RefusedAt(run: seq<Fs>, reqs: seq<Request>, n1st: nat, i: nat, s: nat) {
    i < |reqs| && i < |run| && Legal(run[i], n1st, reqs[i]) && Leaves(run[i], n1st, reqs[i]) == s
  }

  /** How many of the first i requests were unlinks refused at slot s. */
  ghost function Refused(run: seq<Fs>, reqs: seq<Request>, n1st: nat, i: nat, s: nat): nat {
    if i == 0 then 0 else Refused(run, reqs, n1st, i - 1, s) + if RefusedAt(run, reqs, n1st, i - 1, s) then 1 else 0
  }

  /** Reference conservation over every run: a descriptor counts the filp[] entries that point at it; an inode counts
      its descriptors' counts, one for the root, and one for each unlink refused at it. */
  lemma {:induction false} Conservation(run: seq<Fs>, reqs: seq<Request>, n1st: nat, i: nat)
    requires IsRun(run, reqs, n1st) && i < |run|
    ensures |run[i].t.cache| == NR_INODE && forall s | 0 <= s < NR_INODE ::
              run[i].t.cache[s].cnt == InodeRefs(run[i].t.descs, s) + (if s == ROOT_SLOT then 1 else 0)
                  + Refused(run, reqs, n1st, i, s)
    ensures forall d | 0 <= d < |run[i].t.descs| :: run[i].t.descs[d].cnt == RefCount(run[i].t.filp, d)
  {
    RunOk(run, reqs, n1st, i);
    forall s | 0 <= s < NR_INODE
      ensures run[i].t.cache[s].cnt == InodeRefs(run[i].t.descs, s) + (if s == ROOT_SLOT then 1 else 0)
              + Refused(run, reqs, n1st, i, s)
    {
      RunLeaks(run, reqs, n1st, i, s);
    }
    forall d | 0 <= d < |run[i].t.descs| ensures run[i].t.descs[d].cnt == RefCount(run[i].t.filp, d) {
      assert DescOk(run[i].t.filp, run[i].t.descs, d);
    }
  }

  lemma StepLeaks(run: seq<Fs>, reqs: seq<Request>, n1st: nat, i: nat, s: nat)
    requires IsRun(run, reqs, n1st) && i < |reqs| && s < NR_INODE
    ensures |run[i].t.cache| == |run[i + 1].t.cache| == NR_INODE
    ensures Leak(run[i + 1].t, s) == Leak(run[i].t, s) + if RefusedAt(run, reqs, n1st, i, s) then 1 else 0
  {
    RunOk(run, reqs, n1st, i);
    RunOk(run, reqs, n1st, i + 1);
    assert StepAt(run, reqs, n1st, i);
    RequestKeeps(run[i], n1st, reqs[i]);
  }

  lemma NoLeaksAtFirst(run: seq<Fs>, reqs: seq<Request>, n1st: nat, s: nat)
    requires IsRun(run, reqs, n1st) && s < NR_INODE
    ensures |run[0].t.cache| == NR_INODE && Leak(run[0].t, s) == 0
  {
    InitialOk(run[0], n1st);
  }

  /** The references that nobody holds are those of the refused unlinks. */
  lemma {:induction false} RunLeaks(run: seq<Fs>, reqs: seq<Request>, n1st: nat, i: nat, s: nat)
    requires IsRun(run, reqs, n1st) && i < |run| && s < NR_INODE
    ensures |run[i].t.cache| == NR_INODE && Leak(run[i].t, s) == Refused(run, reqs, n1st, i, s)
  {
    if i == 0 {
      NoLeaksAtFirst(run, reqs, n1st, s);
    } else {
      RunLeaks(run, reqs, n1st, i - 1, s);
      StepLeaks(run, reqs, n1st, i - 1, s);
    }
  }

  // ---------------------------------------------------------------- no slot in use is reused

  /** A cache slot in use keeps its inode, a descriptor in use its slot or loses it. */
  ghost predicate SlotsKept(t: Tables, t': Tables) {
    && |t'.cache| == |t.cache| && |t'.descs| == |t.descs|
    && (forall s | 0 <= s < |t.cache| && t.cache[s].cnt > 0 :: t'.cache[s].num == t.cache[s].num)
    && (forall d | 0 <= d < |t.descs| && t.descs[d].inode != NIL ::
         t'.descs[d].inode == t.descs[d].inode || t'.descs[d].inode == NIL)
  }

  lemma OpenKeepsSlots(fs: Fs, n1st: nat, p: nat, path: seq<char>, flags: nat)
    requires OpenLegal(fs, n1st, p, path, flags) && n1st > 0
    ensures SlotsKept(fs.t, Opened(fs, n1st, p, path, flags).0.t)
  {
    if MakesFile(fs, path, flags) {
      NewFileSlots(fs, n1st, path);
    } else if !Creates(flags) && Lookup(fs, path) != INVALID_INODE {
      LookupUsed(fs, n1st, path);
      GottenOk(fs.t.cache, fs.disk, Lookup(fs, path));
    }
  }

  lemma NewFileSlots(fs: Fs, n1st: nat, path: seq<char>)
    requires FsOk(fs, n1st) && n1st > 0 && GoodPath(path) && CanAllocate(fs)
    ensures SlotsKept(fs.t, NewFile(fs, n1st, path).t) && NewFile(fs, n1st, path).t.descs == fs.t.descs
  {
    AllocatedIs(fs, n1st);
    AllocateParts(fs, n1st);
  }

  lemma UnlinkKeepsSlots(fs: Fs, n1st: nat, path: seq<char>)
    requires UnlinkLegal(fs, n1st, path)
    ensures SlotsKept(fs.t, Unlinked(fs, n1st, path).0.t)
  {
    if Names(fs, path) {
      LookupUsed(fs, n1st, path);
      GottenOk(fs.t.cache, fs.disk, Lookup(fs, path));
      if Removes(fs, n1st, path) { FreedReady(fs, n1st, path); }
    }
  }

  lemma TransferKeepsSlots(fs: Fs, n1st: nat, p: nat, fd: nat, write: bool, len: nat)
    requires TransferLegal(fs, n1st, p, fd, write, len)
    ensures SlotsKept(fs.t, Transferred(fs, n1st, p, fd, write, len).t)
  {
    HeldCanDrop(fs.t, p, fd);
  }

  lemma RequestKeepsSlots(fs: Fs, n1st: nat, q: Request)
    requires Legal(fs, n1st, q) && n1st > 0
    ensures SlotsKept(fs.t, Handled(fs, n1st, q).t)
  {
    match q
    case Open(p, path, flags) => OpenKeepsSlots(fs, n1st, p, path, flags);
    case Close(p, fd) => HeldCanDrop(fs.t, p, fd);
    case Transfer(p, fd, write, len) => TransferKeepsSlots(fs, n1st, p, fd, write, len);
    case Fork(child, parent) =>
      ParentForkOk(fs.t, child, parent);
      ForkedSameBut(fs.t, child, fs.t.filp[parent], |fs.t.filp[parent]|);
    case Exit(p) => ExitedSameBut(fs.t, p, 0);
    case Unlink(path) => UnlinkKeepsSlots(fs, n1st, path);
    case Resume(_, _) =>
  }

  lemma StepKeepsSlots(run: seq<Fs>, reqs: seq<Request>, n1st: nat, i: nat, s: nat)
    requires IsRun(run, reqs, n1st) && i < |reqs| && s < NR_INODE
    requires s < |run[i].t.cache| && run[i].t.cache[s].cnt > 0
    ensures s < |run[i + 1].t.cache| && run[i + 1].t.cache[s].num == run[i].t.cache[s].num
  {
    assert StepAt(run, reqs, n1st, i);
    RequestKeepsSlots(run[i], n1st, reqs[i]);
  }

  /** A slot with a reference left behind is in use, and so is the number of its inode. */
  lemma LeakedIsUsed(fs: Fs, n1st: nat, s: nat)
    requires FsOk(fs, n1st) && s < NR_INODE && Leak(fs.t, s) > 0
    ensures fs.t.cache[s].cnt > 0 && fs.t.cache[s].num in Taken(fs.inodeMap)
  {
    InUse(fs.t, s);
  }

  /** A file once refused to unlink can never be unlinked: its inode stays cached under the reference left behind. */
  lemma {:induction false} RefusedForGood(run: seq<Fs>, reqs: seq<Request>, n1st: nat, i: nat, j: nat, s: nat)
    requires IsRun(run, reqs, n1st) && i <= j < |run| && s < NR_INODE && Refused(run, reqs, n1st, i, s) > 0
    ensures |run[i].t.cache| == |run[j].t.cache| == NR_INODE
    ensures run[j].t.cache[s].num == run[i].t.cache[s].num && run[i].t.cache[s].num in Taken(run[j].inodeMap)
    ensures Refused(run, reqs, n1st, j, s) > 0 && run[j].t.cache[s].cnt > 0
  {
    if i < j {
      RefusedForGood(run, reqs, n1st, i, j - 1, s);
      StepKeepsSlots(run, reqs, n1st, j - 1, s);
    }
    RunOk(run, reqs, n1st, j);
    RunLeaks(run, reqs, n1st, j, s);
    RunLeaks(run, reqs, n1st, i, s);
    LeakedIsUsed(run[j], n1st, s);
  }

  // ---------------------------------------------------------------- what is allocated

  /** The number of the inode that a request makes. */
  ghost function Makes(fs: Fs, n1st: nat, q: Request): set<nat>
    requires Legal(fs, n1st, q)
  {
    if q.Open? && MakesFile(fs, q.path, q.flags) then {FirstClear(fs.inodeMap, 0)} else {}
  }

  /** The number of the inode that a request takes out of use. */
  ghost function Ends(fs: Fs, n1st: nat, q: Request): set<nat>
    requires Legal(fs, n1st, q)
  {
    if q.Unlink? && Removes(fs, n1st, q.path) then {Lookup(fs, q.path)} else {}
  }

  lemma OpenTaken(fs: Fs, n1st: nat, p: nat, path: seq<char>, flags: nat)
    requires OpenLegal(fs, n1st, p, path, flags) && n1st > 0
    ensures var taken := Taken(Opened(fs, n1st, p, path, flags).0.inodeMap); var k := FirstClear(fs.inodeMap, 0);
            if MakesFile(fs, path, flags) then k !in Taken(fs.inodeMap) && taken == Taken(fs.inodeMap) + {k}
            else taken == Taken(fs.inodeMap)
  {
    if MakesFile(fs, path, flags) { CreateKeeps(fs, n1st, path); }
  }

  lemma UnlinkTaken(fs: Fs, n1st: nat, path: seq<char>)
    requires UnlinkLegal(fs, n1st, path)
    ensures var taken := Taken(Unlinked(fs, n1st, path).0.inodeMap); var k := Lookup(fs, path);
            if Removes(fs, n1st, path) then k in Taken(fs.inodeMap) && taken == Taken(fs.inodeMap) - {k}
            else taken == Taken(fs.inodeMap)
  {
    LookupUsed(fs, n1st, path);
    if Removes(fs, n1st, path) { RemovedIs(fs, n1st, path); }
  }

  lemma TransferTaken(fs: Fs, n1st: nat, p: nat, fd: nat, write: bool, len: nat)
    requires TransferLegal(fs, n1st, p, fd, write, len)
    ensures Transferred(fs, n1st, p, fd, write, len).inodeMap == fs.inodeMap
  {
    HeldCanDrop(fs.t, p, fd);
  }

  lemma RequestTaken(fs: Fs, n1st: nat, q: Request)
    requires Legal(fs, n1st, q) && n1st > 0
    ensures Taken(Handled(fs, n1st, q).inodeMap) == Taken(fs.inodeMap) + Makes(fs, n1st, q) - Ends(fs, n1st, q)
    ensures Makes(fs, n1st, q) !! Taken(fs.inodeMap) && Ends(fs, n1st, q) <= Taken(fs.inodeMap)
  {
    match q
    case Open(p, path, flags) => OpenTaken(fs, n1st, p, path, flags);
    case Transfer(p, fd, write, len) => TransferTaken(fs, n1st, p, fd, write, len);
    case Unlink(path) => UnlinkTaken(fs, n1st, path);
    case _ =>
  }

  /** The inodes in use by the record of the run: those of mkfs, and those made and not removed since. */
  ghost function Alive(run: seq<Fs>, reqs: seq<Request>, n1st: nat, i: nat): set<nat>
    requires IsRun(run, reqs, n1st) && i <= |reqs|
  {
    if i == 0 then {1, 2, 3, 4}
    else
      assert StepAt(run, reqs, n1st, i - 1);
      Alive(run, reqs, n1st, i - 1) + Makes(run[i - 1], n1st, reqs[i - 1]) - Ends(run[i - 1], n1st, reqs[i - 1])
  }

  /** The inode map marks exactly those. */
  lemma {:induction false} RunAlive(run: seq<Fs>, reqs: seq<Request>, n1st: nat, i: nat)
    requires IsRun(run, reqs, n1st) && i <= |reqs|
    ensures Taken(run[i].inodeMap) == Alive(run, reqs, n1st, i)
  {
    if i == 0 {
      InitialOk(run[0], n1st);
    } else {
      RunAlive(run, reqs, n1st, i - 1);
      assert StepAt(run, reqs, n1st, i - 1);
      RequestTaken(run[i - 1], n1st, reqs[i - 1]);
    }
  }

  /** Both maps mark exactly the inodes alive and their extents, no two files share a sector, and alloc_smap_bit's
      assertions hold exactly while some whole block is free: it then takes the lowest free block. */
  lemma RunExtents(run: seq<Fs>, reqs: seq<Request>, n1st: nat, i: nat)
    requires IsRun(run, reqs, n1st) && i < |run|
    ensures var fs := run[i]; var used := Alive(run, reqs, n1st, i);
            && Matches(fs.sectorMap, Starts(fs.disk, used, n1st))
            && |fs.inodeMap| == NR_INODES && (forall k | 0 <= k < NR_INODES :: fs.inodeMap[k] <==> k == 0 || k in used)
            && (forall k, k' | Owns(fs.disk, used, k, n1st) && Owns(fs.disk, used, k', n1st) && k != k' ::
                  var f, f' := fs.disk[k - 1], fs.disk[k' - 1];
                  f.start + f.nrSects <= f'.start || f'.start + f'.nrSects <= f.start)
            && var b := FirstClear(fs.sectorMap, 0);
               AllClear(fs.sectorMap, b, b + NR_DEFAULT_FILE_SECTS) <==>
               exists s: nat :: IsBlock(s) && s !in Starts(fs.disk, used, n1st)
                   && s + NR_DEFAULT_FILE_SECTS <= |fs.sectorMap|
  {
    RunAlive(run, reqs, n1st, i);
    RunOk(run, reqs, n1st, i);
    ExtentsTrue(run[i], n1st);
  }

  lemma ExtentsTrue(fs: Fs, n1st: nat)
    requires FsOk(fs, n1st)
    ensures var used := Taken(fs.inodeMap); var b := FirstClear(fs.sectorMap, 0);
            && (forall k, k' | Owns(fs.disk, used, k, n1st) && Owns(fs.disk, used, k', n1st) && k != k' ::
                  var f, f' := fs.disk[k - 1], fs.disk[k' - 1];
                  f.start + f.nrSects <= f'.start || f'.start + f'.nrSects <= f.start)
            && (AllClear(fs.sectorMap, b, b + NR_DEFAULT_FILE_SECTS) <==>
                exists s: nat :: IsBlock(s) && s !in Starts(fs.disk, used, n1st)
                    && s + NR_DEFAULT_FILE_SECTS <= |fs.sectorMap|)
  {
    var used := Taken(fs.inodeMap);
    FirstFitExact(fs.sectorMap, Starts(fs.disk, used, n1st));
    forall k, k' | Owns(fs.disk, used, k, n1st) && Owns(fs.disk, used, k', n1st) && k != k'
      ensures var f, f' := fs.disk[k - 1], fs.disk[k' - 1];
              f.start + f.nrSects <= f'.start || f'.start + f'.nrSects <= f.start
    {
      ExtentsDisjoint(fs, n1st, k, k');
    }
  }

  // ---------------------------------------------------------------- the names

  /** A removal, if the request is one, finds no hole before the last entry. */
  ghost predicate LeavesNoHole(fs: Fs, n1st: nat, q: Request)
    requires Legal(fs, n1st, q)
  {
    q.Unlink? && Removes(fs, n1st, q.path) ==> NoHole(fs, Lookup(fs, q.path))
  }

  /** The directory stays a map from names to the inodes in use exactly when the removal meets no hole. */
  lemma RequestKeepsNames(fs: Fs, n1st: nat, q: Request)
    requires Legal(fs, n1st, q) && n1st > 0 && Named(fs)
    ensures ROOT_SLOT < |Handled(fs, n1st, q).t.cache|
    ensures Named(Handled(fs, n1st, q)) <==> LeavesNoHole(fs, n1st, q)
  {
    match q
    case Open(p, path, flags) =>
      if MakesFile(fs, path, flags) { CreateNames(fs, n1st, p, path, flags); }
      else { OpenOtherNamed(fs, n1st, p, path, flags); }
    case Close(p, fd) => HeldCanDrop(fs.t, p, fd);
    case Transfer(p, fd, write, len) => TransferNamed(fs, n1st, p, fd, write, len);
    case Fork(child, parent) =>
      ParentForkOk(fs.t, child, parent);
      ForkedSameBut(fs.t, child, fs.t.filp[parent], |fs.t.filp[parent]|);
    case Exit(p) => ExitedSameBut(fs.t, p, 0);
    case Unlink(path) =>
      if Removes(fs, n1st, path) { UnlinkKeepsNamed(fs, n1st, path); } else { RefusedNamed(fs, n1st, path); }
    case Resume(_, _) =>
  }

  lemma OpenOtherNamed(fs: Fs, n1st: nat, p: nat, path: seq<char>, flags: nat)
    requires OpenLegal(fs, n1st, p, path, flags) && n1st > 0 && !MakesFile(fs, path, flags) && Named(fs)
    ensures ROOT_SLOT < |Opened(fs, n1st, p, path, flags).0.t.cache| && Named(Opened(fs, n1st, p, path, flags).0)
  {
    if !Creates(flags) && Lookup(fs, path) != INVALID_INODE {
      LookupUsed(fs, n1st, path);
      GottenOk(fs.t.cache, fs.disk, Lookup(fs, path));
    }
  }

  lemma RefusedNamed(fs: Fs, n1st: nat, path: seq<char>)
    requires UnlinkLegal(fs, n1st, path) && !Removes(fs, n1st, path) && Named(fs)
    ensures ROOT_SLOT < |Unlinked(fs, n1st, path).0.t.cache| && Named(Unlinked(fs, n1st, path).0)
  {
    if Names(fs, path) {
      LookupUsed(fs, n1st, path);
      GottenOk(fs.t.cache, fs.disk, Lookup(fs, path));
    }
  }

  lemma TransferNamed(fs: Fs, n1st: nat, p: nat, fd: nat, write: bool, len: nat)
    requires TransferLegal(fs, n1st, p, fd, write, len) && Named(fs)
    ensures ROOT_SLOT < |Transferred(fs, n1st, p, fd, write, len).t.cache|
            && Named(Transferred(fs, n1st, p, fd, write, len))
  {
    HeldCanDrop(fs.t, p, fd);
    var d := fs.t.descs[fs.t.filp[p][fd]];
    if Movable(fs, d) {
      TransferKeeps(fs, n1st, p, fd, write, len);
      MoreEntries(fs.slots, Entries(fs.t.cache), Entries(Transferred(fs, n1st, p, fd, write, len).t.cache));
    }
  }

  /** A directory in shape stays in shape when its size grows. */
  lemma MoreEntries(slots: seq<Entry>, n: nat, n': nat)
    requires DirOk(slots, n) && n <= n' && Limit(n') <= |slots|
    ensures DirOk(slots, n')
  {
  }

  /** Request i meets no hole. */
  ghost predicate TidyAt(run: seq<Fs>, reqs: seq<Request>, n1st: nat, i: nat) {
    i < |reqs| && i < |run| && Legal(run[i], n1st, reqs[i]) && LeavesNoHole(run[i], n1st, reqs[i])
  }

  ghost predicate InShapeAt(run: seq<Fs>, i: nat) {
    i < |run| && ROOT_SLOT < |run[i].t.cache| && Named(run[i])
  }

  lemma StepNames(run: seq<Fs>, reqs: seq<Request>, n1st: nat, i: nat)
    requires IsRun(run, reqs, n1st) && i < |reqs| && InShapeAt(run, i)
    ensures InShapeAt(run, i + 1) <==> TidyAt(run, reqs, n1st, i)
  {
    assert StepAt(run, reqs, n1st, i);
    RequestKeepsNames(run[i], n1st, reqs[i]);
  }

  lemma {:induction false} RunInShape(run: seq<Fs>, reqs: seq<Request>, n1st: nat, i: nat)
    requires IsRun(run, reqs, n1st) && i < |run| && forall j | 0 <= j < i :: TidyAt(run, reqs, n1st, j)
    ensures InShapeAt(run, i)
  {
    if i == 0 {
      InitialOk(run[0], n1st);
    } else {
      RunInShape(run, reqs, n1st, i - 1);
      StepNames(run, reqs, n1st, i - 1);
    }
  }

  /** As long as no removal met a hole, the directory is a map from names to exactly the inodes alive. */
  lemma RunNamed(run: seq<Fs>, reqs: seq<Request>, n1st: nat, i: nat)
    requires IsRun(run, reqs, n1st) && i < |run| && forall j | 0 <= j < i :: TidyAt(run, reqs, n1st, j)
    ensures ROOT_SLOT < |run[i].t.cache| && DirOk(run[i].slots, Entries(run[i].t.cache))
    ensures Used(run[i].slots) == Alive(run, reqs, n1st, i)
  {
    RunInShape(run, reqs, n1st, i);
    RunAlive(run, reqs, n1st, i);
  }

  // ---------------------------------------------------------------- contents

  /** In every reachable state, no WRITE of n bytes inside the extent of one file changes another file, exactly when
      that other file lies behind it or ends, grown over its own extent or not, before the bytes written. */
  lemma RunWriteIsolated(run: seq<Fs>, reqs: seq<Request>, n1st: nat, i: nat, k: nat, k': nat, disk: seq<byte>,
      pos: nat, n: nat)
    requires IsRun(run, reqs, n1st) && i < |run| && k != k' && n > 0
    requires Owns(run[i].disk, Taken(run[i].inodeMap), k, n1st) && Owns(run[i].disk, Taken(run[i].inodeMap), k', n1st)
    requires var f, f' := run[i].disk[k - 1], run[i].disk[k' - 1];
             && pos + n <= SECTOR_SIZE * f.nrSects && SECTOR_SIZE * (f.start + f.nrSects) <= |disk|
             && SECTOR_SIZE * f'.start + f'.size <= |disk|
    ensures var f, f' := run[i].disk[k - 1], run[i].disk[k' - 1];
            && SECTOR_SIZE * f.start + pos + n <= |disk|
            && (FileIo.LeavesAlone(disk, SECTOR_SIZE * f.start + pos, n, f'.start, f'.size) <==>
                f.start < f'.start || SECTOR_SIZE * f'.start + f'.size <= SECTOR_SIZE * f.start + pos || f'.size == 0)
            && (f'.size <= SECTOR_SIZE * f'.nrSects ==>
                FileIo.LeavesAlone(disk, SECTOR_SIZE * f.start + pos, n, f'.start, f'.size))
  {
    RunOk(run, reqs, n1st, i);
    var f, f' := run[i].disk[k - 1], run[i].disk[k' - 1];
    ExtentsDisjoint(run[i], n1st, k, k');
    FileIo.LeavesAloneExact(disk, SECTOR_SIZE * f.start + pos, n, f'.start, f'.size);
  }
}
