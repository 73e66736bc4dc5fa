/** Runs from the file system that mkfs writes to the states in which the file server fails its users. */
module Witness {
  import opened Base
  import opened Bits
  import opened Extents
  import opened InodeCache
  import opened Directory
  import opened Refs
  import opened Files
  import opened FileOps
  import opened Requests
  import opened FsRuns
  import opened Contents
  import FileLife
  import FileIo

  /** O_CREAT | O_RDWR */
  const MAKE := 3

  lemma ExtendRun(run: seq<Fs>, reqs: seq<Request>, n1st: nat, q: Request)
    requires IsRun(run, reqs, n1st) && Legal(run[|reqs|], n1st, q)
    ensures IsRun(run + [Handled(run[|reqs|], n1st, q)], reqs + [q], n1st)
  {
    AppendStep(run, reqs, n1st, q, Handled(run[|reqs|], n1st, q));
  }

  lemma AppendStep(run: seq<Fs>, reqs: seq<Request>, n1st: nat, q: Request, fs: Fs)
    requires IsRun(run, reqs, n1st) && Step(run[|reqs|], n1st, q, fs)
    ensures IsRun(run + [fs], reqs + [q], n1st)
  {
    forall i | 0 <= i < |reqs + [q]| ensures StepAt(run + [fs], reqs + [q], n1st, i) {
      AppendedStep(run, reqs, n1st, q, fs, i);
    }
  }

  lemma AppendedStep(run: seq<Fs>, reqs: seq<Request>, n1st: nat, q: Request, fs: Fs, i: nat)
    requires |run| == |reqs| + 1 && i <= |reqs|
    requires if i < |reqs| then StepAt(run, reqs, n1st, i) else Step(run[i], n1st, q, fs)
    ensures StepAt(run + [fs], reqs + [q], n1st, i)
  {
    var run', reqs' := run + [fs], reqs + [q];
    assert run'[i] == run[i] && run'[i + 1] == (if i < |reqs| then run[i + 1] else fs);
    assert reqs'[i] == if i < |reqs| then reqs[i] else q;
  }

  lemma StartRun(fs: Fs, n1st: nat)
    requires Initial(fs, n1st) && n1st > 0
    ensures IsRun([fs], [], n1st)
  {
  }

  lemma FirstStep(fs: Fs, n1st: nat, q: Request)
    requires Initial(fs, n1st) && n1st > 0 && Legal(fs, n1st, q)
    ensures IsRun([fs, Handled(fs, n1st, q)], [q], n1st)
  {
    StartRun(fs, n1st);
    ExtendRun([fs], [], n1st, q);
    assert [] + [q] == [q] && [fs] + [Handled(fs, n1st, q)] == [fs, Handled(fs, n1st, q)];
  }

  // ---------------------------------------------------------------- what mkfs leaves

  /** The names that mkfs enters, by their letters, and the inodes they lead to. */
  lemma MkfsLookups(fs: Fs, n1st: nat)
    requires Initial(fs, n1st)
    ensures FsOk(fs, n1st)
    ensures Lookup(fs, "/dev_tty0") == 2 && Lookup(fs, "/dev_tty1") == 3 && Lookup(fs, "/dev_tty2") == 4
    ensures Lookup(fs, ".") == 1 && Lookup(fs, "/") == 1
    ensures fs.disk[0] == Fields(16384, 64, n1st, 2048)
    ensures fs.disk[1] == Fields(8192, 0, 0x400, 0) && fs.disk[2] == Fields(8192, 0, 0x401, 0)
            && fs.disk[3] == Fields(8192, 0, 0x402, 0)
  {
    InitialOk(fs, n1st);
    MkfsInodes(fs, n1st);
    FourEntries(fs, n1st);
    FourNames(fs);
  }

  lemma FourNames(fs: Fs)
    requires ROOT_SLOT < |fs.t.cache| && Entries(fs.t.cache) == 4 && DirOk(fs.slots, 4)
    requires forall i | 0 <= i < 4 :: fs.slots[i] == MkfsEntry(i)
    ensures GoodPath("/dev_tty0")
    ensures Lookup(fs, "/dev_tty0") == 2 && Lookup(fs, "/dev_tty1") == 3 && Lookup(fs, "/dev_tty2") == 4
    ensures Lookup(fs, ".") == 1 && Lookup(fs, "/") == 1
  {
    RootPaths(fs);
    NameLeads(fs, 0, ".");
    Terminal0(fs);
    Terminal1(fs);
    Terminal2(fs);
  }

  lemma ThreeNames()
    ensures "dev_tty" + ["012"[0]] == "dev_tty0" && "/dev_tty0" == "/" + "dev_tty0"
    ensures "dev_tty" + ["012"[1]] == "dev_tty1" && "/dev_tty1" == "/" + "dev_tty1"
    ensures "dev_tty" + ["012"[2]] == "dev_tty2" && "/dev_tty2" == "/" + "dev_tty2"
  {
  }

  lemma Terminal0(fs: Fs)
    requires ROOT_SLOT < |fs.t.cache| && Entries(fs.t.cache) == 4 && DirOk(fs.slots, 4) && fs.slots[1] == MkfsEntry(1)
    ensures GoodPath("/dev_tty0") && Lookup(fs, "/dev_tty0") == 2
  {
    ThreeNames();
    NameLeads(fs, 1, "dev_tty0");
  }

  lemma Terminal1(fs: Fs)
    requires ROOT_SLOT < |fs.t.cache| && Entries(fs.t.cache) == 4 && DirOk(fs.slots, 4) && fs.slots[2] == MkfsEntry(2)
    ensures Lookup(fs, "/dev_tty1") == 3
  {
    ThreeNames();
    NameLeads(fs, 2, "dev_tty1");
  }

  lemma Terminal2(fs: Fs)
    requires ROOT_SLOT < |fs.t.cache| && Entries(fs.t.cache) == 4 && DirOk(fs.slots, 4) && fs.slots[3] == MkfsEntry(3)
    ensures Lookup(fs, "/dev_tty2") == 4
  {
    ThreeNames();
    NameLeads(fs, 3, "dev_tty2");
  }

  lemma FourEntries(fs: Fs, n1st: nat)
    requires Initial(fs, n1st) && Named(fs)
    ensures Entries(fs.t.cache) == 4 && DirOk(fs.slots, 4) && forall i | 0 <= i < 4 :: fs.slots[i] == MkfsEntry(i)
  {
    assert fs.t.cache[ROOT_SLOT] == Inode(ROOT_INODE, 1, MkfsInode(1, n1st));
  }

  /** The name in one of mkfs's slots, with a slash in front of it or not. */
  lemma NameLeads(fs: Fs, i: nat, name: seq<char>)
    requires ROOT_SLOT < |fs.t.cache| && Entries(fs.t.cache) == 4 && DirOk(fs.slots, 4) && i < 4
    requires fs.slots[i] == MkfsEntry(i) && name == if i == 0 then "." else "dev_tty" + ["012"[i - 1]]
    ensures GoodPath(name) && GoodPath("/" + name)
    ensures Lookup(fs, name) == Lookup(fs, "/" + name) == if i == 0 then 1 else i + 1
  {
    assert NamedAt(fs.slots, i, name);
    SearchExact(fs.slots, 4, name);
    LeadingSlash(fs, name);
  }

  lemma MkfsInodes(fs: Fs, n1st: nat)
    requires Initial(fs, n1st)
    ensures fs.disk[0] == Fields(16384, 64, n1st, 2048)
    ensures fs.disk[1] == Fields(8192, 0, 0x400, 0) && fs.disk[2] == Fields(8192, 0, 0x401, 0)
            && fs.disk[3] == Fields(8192, 0, 0x402, 0)
  {
    assert fs.disk[1 - 1] == MkfsInode(1, n1st) && fs.disk[2 - 1] == MkfsInode(2, n1st);
    assert fs.disk[3 - 1] == MkfsInode(3, n1st) && fs.disk[4 - 1] == MkfsInode(4, n1st);
  }

  /** The first call of Init: the terminal is opened, as descriptor 0. */
  lemma InitOpens(fs: Fs, n1st: nat, p: nat)
    requires Initial(fs, n1st) && n1st > 0 && p < |fs.t.filp|
    ensures Legal(fs, n1st, Open(p, "/dev_tty0", 2))
    ensures var (fs', fd) := Opened(fs, n1st, p, "/dev_tty0", 2); fd == 0 && OpenedAt(fs', p, 0, 2, 2)
  {
    FirstPath(fs, n1st);
    FirstFree(fs, n1st, p);
    TerminalSlot(fs, n1st);
    OpenHolds(fs, n1st, p, "/dev_tty0", 2);
  }

  lemma FirstPath(fs: Fs, n1st: nat)
    requires Initial(fs, n1st)
    ensures FsOk(fs, n1st) && GoodPath("/dev_tty0") && Lookup(fs, "/dev_tty0") == 2
  {
    InitialOk(fs, n1st);
    FourEntries(fs, n1st);
    FourNames(fs);
  }

  lemma FirstFree(fs: Fs, n1st: nat, p: nat)
    requires Initial(fs, n1st) && p < |fs.t.filp|
    ensures FreeFd(fs.t.filp[p], 0) == 0 < |fs.t.filp[p]| && FreeDesc(fs.t.descs, 0) == 0 < |fs.t.descs|
  {
  }

  // ---------------------------------------------------------------- a refused unlink

  /** The unlink of a terminal from mkfs is refused and leaves a reference. */
  lemma TerminalRefused(fs: Fs, n1st: nat) returns (run: seq<Fs>)
    requires Initial(fs, n1st) && n1st > 0
    ensures IsRun(run, [Unlink("dev_tty0")], n1st) && run[0] == fs
    ensures UnlinkLegal(fs, n1st, "dev_tty0") && Unlinked(fs, n1st, "dev_tty0") == (run[1], -1)
    ensures Refused(run, [Unlink("dev_tty0")], n1st, 1, 1) == 1 && |run[1].t.cache| > 1 && run[1].t.cache[1].num == 2
  {
    var path := "dev_tty0";
    TerminalFound(fs, n1st);
    TerminalSlot(fs, n1st);
    TerminalLeaks(fs, n1st);
    FirstStep(fs, n1st, Unlink(path));
    run := [fs, Handled(fs, n1st, Unlink(path))];
    assert Refused(run, [Unlink(path)], n1st, 0, 1) == 0;
  }

  lemma TerminalFound(fs: Fs, n1st: nat)
    requires Initial(fs, n1st)
    ensures FsOk(fs, n1st) && GoodPath("dev_tty0") && Lookup(fs, "dev_tty0") == 2
  {
    InitialOk(fs, n1st);
    assert Entries(fs.t.cache) == 4;
    assert fs.slots[1] == MkfsEntry(1);
    TerminalName(fs.slots);
    assert Stripped("dev_tty0") == "dev_tty0";
  }

  lemma TerminalName(slots: seq<Entry>)
    requires DirOk(slots, 4) && slots[1] == MkfsEntry(1)
    ensures Search(slots, 4, "dev_tty0") == 2
  {
    assert "dev_tty0" == TtyName(0);
    assert NamedAt(slots, 1, "dev_tty0");
    SearchExact(slots, 4, "dev_tty0");
  }

  lemma TerminalLeaks(fs: Fs, n1st: nat)
    requires Initial(fs, n1st) && n1st > 0
    ensures UnlinkLegal(fs, n1st, "dev_tty0") && LeaksAt(fs, n1st, "dev_tty0") == 1 && |fs.t.cache| > 1
    ensures Unlinked(fs, n1st, "dev_tty0").1 == -1 && |Unlinked(fs, n1st, "dev_tty0").0.t.cache| > 1
    ensures Unlinked(fs, n1st, "dev_tty0").0.t.cache[1].num == 2
  {
    TerminalFound(fs, n1st);
    TerminalSlot(fs, n1st);
  }

  /** The terminal goes into the second slot of the cache. */
  lemma TerminalSlot(fs: Fs, n1st: nat)
    requires Initial(fs, n1st)
    ensures SlotFor(fs.t.cache, 2) == 1 && Gotten(fs.t.cache, fs.disk, 2)[1] == Inode(2, 1, fs.disk[2 - 1])
    ensures fs.disk[2 - 1].mode == I_CHAR_SPECIAL
  {
    assert fs.disk[2 - 1] == MkfsInode(2, n1st);
    var t := fs.t.cache;
    assert LiveSlot(t, 2, 0) == -1;
    assert t[0].cnt == 1 && t[1].cnt == 0;
    assert FreeSlot(t, 0) == FreeSlot(t, 1) == 1;
  }

  // ---------------------------------------------------------------- files made one after the other

  /** The name of the i-th file. */
  function Letter(i: nat): seq<char>
    requires i < 4
  {
    ["abcd"[i]]
  }

  /** Slot i after j files. */
  function StageEntry(i: nat, j: nat): Entry
    requires j <= 4
  {
    if i < 4 then MkfsEntry(i) else if i < 4 + j then Entry(i + 1, Padded(Letter(i - 4))) else ZERO_ENTRY
  }

  /** Inode k of the files. */
  function StageInode(k: nat, n1st: nat): Fields
    requires k >= 5
  {
    Fields(I_REGULAR, 0, n1st + NR_DEFAULT_FILE_SECTS * (k - 4), NR_DEFAULT_FILE_SECTS)
  }

  /** Process 0 holds nothing, no descriptor is in use, and only the root is cached. */
  ghost predicate AtRest(t: Tables) {
    && |t.filp| > 0 && |t.filp[0]| > 0 && (forall fd | 0 <= fd < |t.filp[0]| :: t.filp[0][fd] == NIL)
    && |t.descs| > 0 && (forall d | 0 <= d < |t.descs| :: t.descs[d].inode == NIL)
    && |t.cache| > 1 && (forall s | 0 < s < |t.cache| :: t.cache[s].cnt == 0)
  }

  ghost predicate MapsAt(fs: Fs, j: nat) {
    && |fs.inodeMap| == NR_INODES && (forall k | 0 <= k < NR_INODES :: fs.inodeMap[k] <==> k < 5 + j)
    && |fs.sectorMap| >= 12288
    && forall b | 0 <= b < |fs.sectorMap| :: fs.sectorMap[b] <==> b < 1 + NR_DEFAULT_FILE_SECTS * (1 + j)
  }

  /** Maps, directory and inodes once j files are made. */
  ghost predicate StageParts(fs: Fs, n1st: nat, j: nat) {
    && j <= 4 && MapsAt(fs, j) && ROOT_SLOT < |fs.t.cache| && Entries(fs.t.cache) == 4 + j
    && |fs.slots| == DIR_SLOTS && (forall i | 0 <= i < DIR_SLOTS :: fs.slots[i] == StageEntry(i, j))
    && |fs.disk| == NR_INODES && (forall k | 5 <= k < 5 + j :: fs.disk[k - 1] == StageInode(k, n1st))
  }

  /** j files made and closed. */
  ghost predicate Stage(fs: Fs, n1st: nat, j: nat) {
    FsOk(fs, n1st) && Named(fs) && AtRest(fs.t) && StageParts(fs, n1st, j)
  }

  lemma SameParts(fs: Fs, fs': Fs, n1st: nat, j: nat)
    requires StageParts(fs, n1st, j) && ROOT_SLOT < |fs'.t.cache| && fs'.t.cache[ROOT_SLOT].f == fs.t.cache[ROOT_SLOT].f
    requires fs'.inodeMap == fs.inodeMap && fs'.sectorMap == fs.sectorMap && fs'.slots == fs.slots
             && fs'.disk == fs.disk
    ensures StageParts(fs', n1st, j)
  {
  }

  lemma StageZero(fs: Fs, n1st: nat)
    requires Initial(fs, n1st) && |fs.t.filp| > 0 && |fs.sectorMap| >= 12288
    ensures Stage(fs, n1st, 0)
  {
    InitialOk(fs, n1st);
    PartsZero(fs, n1st);
    RestZero(fs, n1st);
  }

  lemma RestZero(fs: Fs, n1st: nat)
    requires Initial(fs, n1st) && |fs.t.filp| > 0
    ensures AtRest(fs.t)
  {
  }

  lemma PartsZero(fs: Fs, n1st: nat)
    requires Initial(fs, n1st) && |fs.sectorMap| >= 12288
    ensures StageParts(fs, n1st, 0)
  {
    assert Entries(fs.t.cache) == 4;
  }

  lemma FirstClearIs(bits: seq<bool>, f: nat)
    requires f < |bits| && forall i | 0 <= i < |bits| :: bits[i] <==> i < f
    ensures FirstClear(bits, 0) == f
  {
    assert !bits[f];
  }

  lemma LetterGood(i: nat)
    requires i < 4
    ensures GoodPath(Letter(i)) && Stripped(Letter(i)) == Letter(i) && GoodName(Letter(i)) && '/' !in Letter(i)
  {
    assert i == 0 || i == 1 || i == 2 || i == 3;
  }

  /** No slot has the name of the next file. */
  lemma NameFree(fs: Fs, n1st: nat, j: nat)
    requires Stage(fs, n1st, j) && j < 4
    ensures Lookup(fs, Letter(j)) == INVALID_INODE
  {
    LetterGood(j);
    forall i | 0 <= i < DIR_SLOTS ensures fs.slots[i].name != Padded(Letter(j)) {
      NameDiffers(i, j);
    }
    SearchMiss(fs.slots, Padded(Letter(j)), 0, Limit(Entries(fs.t.cache)));
  }

  lemma NameDiffers(i: nat, j: nat)
    requires j < 4
    ensures StageEntry(i, j).name != Padded(Letter(j))
  {
    assert Padded(Letter(j))[0] == "abcd"[j] && Padded(Letter(j))[1] == NUL;
    if i < 4 {
      assert MkfsEntry(i).name[0] == '.' || MkfsEntry(i).name[1] == 'e';
    } else if i < 4 + j {
      assert StageEntry(i, j).name[0] == "abcd"[i - 4];
    }
  }

  /** Both maps are full up to where the next file goes. */
  lemma RoomInMaps(fs: Fs, n1st: nat, j: nat)
    requires Stage(fs, n1st, j) && j < 4
    ensures FirstClear(fs.inodeMap, 0) == 5 + j && FirstClear(fs.sectorMap, 0) == 1 + NR_DEFAULT_FILE_SECTS * (1 + j)
  {
    FirstClearIs(fs.inodeMap, 5 + j);
    FirstClearIs(fs.sectorMap, 1 + NR_DEFAULT_FILE_SECTS * (1 + j));
  }

  /** The next file can be made. */
  lemma RoomForMore(fs: Fs, n1st: nat, j: nat)
    requires Stage(fs, n1st, j) && j < 4
    ensures FirstClear(fs.inodeMap, 0) == 5 + j && FirstClear(fs.sectorMap, 0) == 1 + NR_DEFAULT_FILE_SECTS * (1 + j)
    ensures FreeFd(fs.t.filp[0], 0) == 0 && FreeDesc(fs.t.descs, 0) == 0
    ensures OpenLegal(fs, n1st, 0, Letter(j), MAKE) && MakesFile(fs, Letter(j), MAKE)
  {
    RoomInMaps(fs, n1st, j);
    LetterGood(j);
    NameFree(fs, n1st, j);
    assert fs.t.cache[1].cnt == 0;
    assert FreeSlot(fs.t.cache, 0) >= 0;
  }

  /** new_dir_entry takes the next slot. */
  lemma MadeSlots(slots: seq<Entry>, j: nat)
    requires j < 4 && |slots| == DIR_SLOTS && forall i | 0 <= i < DIR_SLOTS :: slots[i] == StageEntry(i, j)
    ensures var (slots', n') := Added(slots, 4 + j, 5 + j, Letter(j));
            n' == 5 + j && |slots'| == DIR_SLOTS && forall i | 0 <= i < DIR_SLOTS :: slots'[i] == StageEntry(i, j + 1)
  {
    var e := Place(slots, 4 + j, 0);
    assert e == 4 + j by {
      assert slots[e] == StageEntry(e, j);
    }
    assert slots[e] == ZERO_ENTRY;
    assert Written(ZERO_NAME, Letter(j)) == Padded(Letter(j));
  }

  lemma MadeMaps(fs: Fs, j: nat, inodeMap: seq<bool>, sectorMap: seq<bool>)
    requires MapsAt(fs, j) && j < 4
    requires inodeMap == Fill(fs.inodeMap, 5 + j, 6 + j, true)
    requires var b := 1 + NR_DEFAULT_FILE_SECTS * (1 + j);
             sectorMap == Fill(fs.sectorMap, b, b + NR_DEFAULT_FILE_SECTS, true)
    ensures MapsAt(fs.(inodeMap := inodeMap, sectorMap := sectorMap), j + 1)
  {
  }

  /** What create_file leaves in the maps and the directory. */
  lemma NewFileParts(fs: Fs, n1st: nat, path: seq<char>)
    requires FsOk(fs, n1st) && n1st > 0 && GoodPath(path) && CanAllocate(fs)
    ensures var c := NewFile(fs, n1st, path); var k, b := FirstClear(fs.inodeMap, 0), FirstClear(fs.sectorMap, 0);
            && c.inodeMap == Fill(fs.inodeMap, k, k + 1, true)
            && c.sectorMap == Fill(fs.sectorMap, b, b + NR_DEFAULT_FILE_SECTS, true)
            && ROOT_SLOT < |c.t.cache| && Entries(fs.t.cache) < |fs.slots|
            && (c.slots, Entries(c.t.cache)) == Added(fs.slots, Entries(fs.t.cache), k, Stripped(path))
  {
    AllocateParts(fs, n1st);
    FileLife.NewFileIs(fs, n1st, path);
    EnteredNames(Allocated(fs, n1st), FirstClear(fs.inodeMap, 0), Stripped(path));
  }

  /** The files after the next is made. */
  lemma MadeParts(fs: Fs, n1st: nat, j: nat)
    requires Stage(fs, n1st, j) && j < 4 && n1st > 0 && CanAllocate(fs) && GoodPath(Letter(j))
    requires Stripped(Letter(j)) == Letter(j)
    requires FirstClear(fs.inodeMap, 0) == 5 + j && FirstClear(fs.sectorMap, 0) == 1 + NR_DEFAULT_FILE_SECTS * (1 + j)
    ensures StageParts(NewFile(fs, n1st, Letter(j)), n1st, j + 1)
  {
    MadeInodes(fs, n1st, j);
    NewFileParts(fs, n1st, Letter(j));
    MadeMaps(fs, j, NewFile(fs, n1st, Letter(j)).inodeMap, NewFile(fs, n1st, Letter(j)).sectorMap);
    MadeSlots(fs.slots, j);
  }

  lemma MadeInodes(fs: Fs, n1st: nat, j: nat)
    requires Stage(fs, n1st, j) && j < 4 && n1st > 0 && CanAllocate(fs) && GoodPath(Letter(j))
    requires FirstClear(fs.inodeMap, 0) == 5 + j && FirstClear(fs.sectorMap, 0) == 1 + NR_DEFAULT_FILE_SECTS * (1 + j)
    ensures var c := NewFile(fs, n1st, Letter(j));
            |c.disk| == NR_INODES && forall k | 5 <= k < 6 + j :: c.disk[k - 1] == StageInode(k, n1st)
  {
    MadeDisk(fs, n1st, Letter(j));
    var c := NewFile(fs, n1st, Letter(j));
    forall k | 5 <= k < 6 + j ensures c.disk[k - 1] == StageInode(k, n1st) {
      assert k - 1 != 4 + j ==> c.disk[k - 1] == fs.disk[k - 1];
    }
  }

  /** A descriptor on a cache slot taken for it, and given up again. */
  lemma AttachDrop(t: Tables, cache: seq<Inode>, s: nat)
    requires AtRest(t) && OneMore(t.cache, cache, s) && s != ROOT_SLOT
    ensures CanAttach(t.(cache := cache), 0, 0, 0, s)
    ensures var t1 := Attach(t.(cache := cache), 0, 0, 0, s, MAKE); CanDrop(t1, 0, 0) && AtRest(Drop(t1, 0, 0))
  {
  }

  /** After a creation and a close everything is at rest again. */
  lemma MadeTables(fs: Fs, n1st: nat, j: nat)
    requires Stage(fs, n1st, j) && j < 4 && n1st > 0 && OpenLegal(fs, n1st, 0, Letter(j), MAKE)
    requires MakesFile(fs, Letter(j), MAKE) && FreeFd(fs.t.filp[0], 0) == 0 && FreeDesc(fs.t.descs, 0) == 0
    ensures var (fs1, fd) := Opened(fs, n1st, 0, Letter(j), MAKE); var c := NewFile(fs, n1st, Letter(j));
            && fd == 0 && FsOk(fs1, n1st) && CanDrop(fs1.t, 0, 0) && AtRest(Drop(fs1.t, 0, 0))
            && fs1.inodeMap == c.inodeMap && fs1.sectorMap == c.sectorMap && fs1.slots == c.slots && fs1.disk == c.disk
            && fs1.t.cache == c.t.cache
  {
    OpenKeeps(fs, n1st, 0, Letter(j), MAKE);
    CreateKeeps(fs, n1st, Letter(j));
    AllocatedIs(fs, n1st);
    var c := NewFile(fs, n1st, Letter(j));
    var s := SlotFor(fs.t.cache, FirstClear(fs.inodeMap, 0));
    AttachDrop(fs.t, c.t.cache, s);
    assert c.t == fs.t.(cache := c.t.cache);
  }

  /** Closing touches no map, slot or inode. */
  lemma ClosedSame(fs: Fs, n1st: nat, p: nat, fd: nat)
    requires CloseLegal(fs, n1st, p, fd)
    ensures var fs' := Closed(fs, n1st, p, fd);
            && fs'.inodeMap == fs.inodeMap && fs'.sectorMap == fs.sectorMap && fs'.slots == fs.slots
               && fs'.disk == fs.disk
            && |fs'.t.cache| == |fs.t.cache| == NR_INODE && fs'.t.cache[ROOT_SLOT].f == fs.t.cache[ROOT_SLOT].f
  {
    HeldCanDrop(fs.t, p, fd);
  }

  /** Made and closed, as two requests. */
  lemma MakeOne(fs: Fs, n1st: nat, j: nat) returns (fs1: Fs, fs2: Fs)
    requires Stage(fs, n1st, j) && j < 4 && n1st > 0
    ensures OpenLegal(fs, n1st, 0, Letter(j), MAKE) && Opened(fs, n1st, 0, Letter(j), MAKE) == (fs1, 0)
    ensures CloseLegal(fs1, n1st, 0, 0) && fs2 == Closed(fs1, n1st, 0, 0) && Stage(fs2, n1st, j + 1)
  {
    RoomForMore(fs, n1st, j);
    LetterGood(j);
    MadeTables(fs, n1st, j);
    fs1 := Opened(fs, n1st, 0, Letter(j), MAKE).0;
    MadeParts(fs, n1st, j);
    SameParts(NewFile(fs, n1st, Letter(j)), fs1, n1st, j + 1);
    CreateNames(fs, n1st, 0, Letter(j), MAKE);
    fs2 := Closed(fs1, n1st, 0, 0);
    ClosedStage(fs1, n1st, j + 1);
  }

  lemma ClosedStage(fs: Fs, n1st: nat, j: nat)
    requires CloseLegal(fs, n1st, 0, 0) && Named(fs) && StageParts(fs, n1st, j)
    requires CanDrop(fs.t, 0, 0) && AtRest(Drop(fs.t, 0, 0))
    ensures Stage(Closed(fs, n1st, 0, 0), n1st, j)
  {
    CloseKeeps(fs, n1st, 0, 0);
    ClosedSame(fs, n1st, 0, 0);
    SameParts(fs, Closed(fs, n1st, 0, 0), n1st, j);
    FileLife.ClosedNamed(fs, n1st, 0, 0);
  }

  lemma OpenStep(fs: Fs, n1st: nat, path: seq<char>, fs1: Fs)
    requires n1st > 0 && OpenLegal(fs, n1st, 0, path, MAKE) && Opened(fs, n1st, 0, path, MAKE).0 == fs1
    ensures Legal(fs, n1st, Open(0, path, MAKE)) && Handled(fs, n1st, Open(0, path, MAKE)) == fs1
  {
  }

  /** A run goes on with one more file made and closed. */
  lemma StageStep(run: seq<Fs>, reqs: seq<Request>, n1st: nat, j: nat) returns (run': seq<Fs>, reqs': seq<Request>)
    requires IsRun(run, reqs, n1st) && j < 4 && Stage(run[|reqs|], n1st, j)
    ensures IsRun(run', reqs', n1st) && run'[0] == run[0] && |reqs'| == |reqs| + 2 && Stage(run'[|reqs'|], n1st, j + 1)
  {
    var fs1, fs2 := MakeOne(run[|reqs|], n1st, j);
    OpenStep(run[|reqs|], n1st, Letter(j), fs1);
    run', reqs' := OneStep(run, reqs, n1st, Open(0, Letter(j), MAKE), fs1);
    run', reqs' := OneStep(run', reqs', n1st, Close(0, 0), fs2);
  }

  lemma OneStep(run: seq<Fs>, reqs: seq<Request>, n1st: nat, q: Request, fs: Fs)
      returns (run': seq<Fs>, reqs': seq<Request>)
    requires IsRun(run, reqs, n1st) && Legal(run[|reqs|], n1st, q) && fs == Handled(run[|reqs|], n1st, q)
    ensures run' == run + [fs] && reqs' == reqs + [q] && IsRun(run', reqs', n1st)
  {
    ExtendRun(run, reqs, n1st, q);
    run', reqs' := run + [fs], reqs + [q];
  }

  /** The run that makes j files and closes each. */
  lemma {:induction false} StageRun(fs: Fs, n1st: nat, j: nat) returns (run: seq<Fs>, reqs: seq<Request>)
    requires Initial(fs, n1st) && n1st > 0 && |fs.t.filp| > 0 && |fs.sectorMap| >= 12288 && j <= 4
    ensures IsRun(run, reqs, n1st) && run[0] == fs && |reqs| == 2 * j && Stage(run[2 * j], n1st, j)
  {
    if j == 0 {
      run, reqs := [fs], [];
      StartRun(fs, n1st);
      StageZero(fs, n1st);
    } else {
      run, reqs := StageRun(fs, n1st, j - 1);
      run, reqs := StageStep(run, reqs, n1st, j - 1);
    }
  }

  // ---------------------------------------------------------------- a file lost

  /** A regular file that nobody holds is removed. */
  lemma Removed1(fs: Fs, n1st: nat, path: seq<char>, k: nat)
    requires FsOk(fs, n1st) && AtRest(fs.t) && GoodPath(path) && path != "/" && Lookup(fs, path) == k
    requires 1 < k <= |fs.disk| && fs.disk[k - 1].mode == I_REGULAR && HasEntry(fs, k)
    ensures UnlinkLegal(fs, n1st, path) && Removes(fs, n1st, path) && AtRest(Unlinked(fs, n1st, path).0.t)
  {
    LookupUsed(fs, n1st, path);
    assert fs.t.cache[1].cnt == 0;
    assert FreeSlot(fs.t.cache, 0) >= 0;
    FreshlyGotten(fs, n1st, k);
    RemovedIs(fs, n1st, path);
  }

  /** The first eight slots with the four files, some of them removed. */
  ghost predicate LeftSlots(slots: seq<Entry>, gone: set<nat>) {
    |slots| == DIR_SLOTS && forall i | 0 <= i < 8 :: slots[i] == if i + 1 in gone then ZERO_ENTRY else StageEntry(i, 4)
  }

  ghost predicate LeftInodes(disk: seq<Fields>, gone: set<nat>) {
    |disk| == NR_INODES && forall x | 4 <= x < 8 && x + 1 !in gone :: disk[x].mode == I_REGULAR
  }

  ghost predicate Left(fs: Fs, n1st: nat, gone: set<nat>) {
    && FsOk(fs, n1st) && Named(fs) && AtRest(fs.t) && Entries(fs.t.cache) == 8
    && LeftSlots(fs.slots, gone) && LeftInodes(fs.disk, gone)
  }

  lemma StageLeft(fs: Fs, n1st: nat)
    requires Stage(fs, n1st, 4)
    ensures Left(fs, n1st, {})
  {
    assert fs.disk[5 - 1] == StageInode(5, n1st) && fs.disk[6 - 1] == StageInode(6, n1st);
    assert fs.disk[7 - 1] == StageInode(7, n1st) && fs.disk[8 - 1] == StageInode(8, n1st);
  }

  lemma LeftName(fs: Fs, n1st: nat, gone: set<nat>, k: nat)
    requires Left(fs, n1st, gone) && 5 <= k <= 8 && k !in gone
    ensures Lookup(fs, Letter(k - 5)) == k && HasEntry(fs, k) && SlotOf(fs.slots, 8, k, 0) == k - 1
  {
    LetterGood(k - 5);
    assert NamedAt(fs.slots, k - 1, Letter(k - 5));
    SearchExact(fs.slots, 8, Letter(k - 5));
    OneSlot(fs.slots, 8, k - 1);
  }

  lemma OneSlot(slots: seq<Entry>, n: nat, e: nat)
    requires DirOk(slots, n) && LiveAt(slots, e)
    ensures n <= |slots| && SlotOf(slots, n, slots[e].inodeNr, 0) == e
  {
  }

  lemma GoneSlots(slots: seq<Entry>, gone: set<nat>, k: nat)
    requires LeftSlots(slots, gone) && 5 <= k < 8 && SlotOf(slots, 8, k, 0) == k - 1
    ensures var (slots', n') := Removed(slots, 8, k); n' == 8 && LeftSlots(slots', gone + {k})
  {
  }

  lemma GoneInodes(fs: Fs, n1st: nat, gone: set<nat>, path: seq<char>)
    requires UnlinkLegal(fs, n1st, path) && Removes(fs, n1st, path) && LeftInodes(fs.disk, gone)
    ensures LeftInodes(Unlinked(fs, n1st, path).0.disk, gone + {Lookup(fs, path)})
  {
    var fs' := Unlinked(fs, n1st, path).0;
    RemovedIs(fs, n1st, path);
    forall x | 4 <= x < 8 && x + 1 !in gone + {Lookup(fs, path)} ensures fs'.disk[x].mode == I_REGULAR {
      RemovedDisk(fs, n1st, path, x);
    }
  }

  /** One more removed, not the last. */
  lemma OneGone(fs: Fs, n1st: nat, gone: set<nat>, k: nat) returns (fs': Fs)
    requires Left(fs, n1st, gone) && 5 <= k < 8 && k !in gone
    ensures UnlinkLegal(fs, n1st, Letter(k - 5)) && Unlinked(fs, n1st, Letter(k - 5)) == (fs', 0)
    ensures Left(fs', n1st, gone + {k})
  {
    LetterGood(k - 5);
    LeftName(fs, n1st, gone, k);
    Removed1(fs, n1st, Letter(k - 5), k);
    fs' := Unlinked(fs, n1st, Letter(k - 5)).0;
    GoneLeft(fs, n1st, gone, Letter(k - 5), k);
  }

  lemma GoneLeft(fs: Fs, n1st: nat, gone: set<nat>, path: seq<char>, k: nat)
    requires Left(fs, n1st, gone) && UnlinkLegal(fs, n1st, path) && Removes(fs, n1st, path) && Lookup(fs, path) == k
    requires 5 <= k < 8 && SlotOf(fs.slots, 8, k, 0) == k - 1 && AtRest(Unlinked(fs, n1st, path).0.t)
    ensures Left(Unlinked(fs, n1st, path).0, n1st, gone + {k})
  {
    UnlinkedSlots(fs, n1st, path);
    UnlinkKeepsNamed(fs, n1st, path);
    GoneSlots(fs.slots, gone, k);
    GoneInodes(fs, n1st, gone, path);
  }

  /** A run goes on with the removal of one more. */
  lemma GoneRun(run: seq<Fs>, reqs: seq<Request>, n1st: nat, gone: set<nat>, k: nat)
    returns (run': seq<Fs>, reqs': seq<Request>)
    requires IsRun(run, reqs, n1st) && Left(run[|reqs|], n1st, gone) && 5 <= k < 8 && k !in gone
    ensures IsRun(run', reqs', n1st) && |reqs'| == |reqs| + 1 && run'[0] == run[0]
            && Left(run'[|reqs'|], n1st, gone + {k})
  {
    var fs' := OneGone(run[|reqs|], n1st, gone, k);
    ExtendRun(run, reqs, n1st, Unlink(Letter(k - 5)));
    run', reqs' := run + [fs'], reqs + [Unlink(Letter(k - 5))];
  }

  /** The run that makes four files and removes the first two. */
  lemma TwoGoneRun(fs: Fs, n1st: nat) returns (run: seq<Fs>, reqs: seq<Request>)
    requires Initial(fs, n1st) && n1st > 0 && |fs.t.filp| > 0 && |fs.sectorMap| >= 12288
    ensures IsRun(run, reqs, n1st) && run[0] == fs && |reqs| == 10 && Left(run[10], n1st, {} + {5} + {6})
  {
    run, reqs := StageRun(fs, n1st, 4);
    StageLeft(run[8], n1st);
    run, reqs := GoneRun(run, reqs, n1st, {}, 5);
    run, reqs := GoneRun(run, reqs, n1st, {} + {5}, 6);
  }

  /** A run from mkfs in which unlinking "d" makes "c" unreachable, which nobody unlinked. */
  lemma LostFile(fs: Fs, n1st: nat) returns (run: seq<Fs>, reqs: seq<Request>)
    requires Initial(fs, n1st) && n1st > 0 && |fs.t.filp| > 0 && |fs.sectorMap| >= 12288
    ensures IsRun(run, reqs, n1st) && run[0] == fs && |reqs| == 11 && reqs[10] == Unlink("d")
    ensures LostAfter(run[10], run[11])
  {
    run, reqs := TwoGoneRun(fs, n1st);
    var fs' := LastUnlink(run[10], n1st);
    run, reqs := OneStep(run, reqs, n1st, Unlink("d"), fs');
  }

  lemma LastUnlink(fs: Fs, n1st: nat) returns (fs': Fs)
    requires Left(fs, n1st, {} + {5} + {6}) && n1st > 0
    ensures Legal(fs, n1st, Unlink("d")) && fs' == Handled(fs, n1st, Unlink("d")) && LostAfter(fs, fs')
  {
    LastRemovable(fs, n1st);
    LastGone(fs, n1st);
    fs' := Unlinked(fs, n1st, "d").0;
  }

  /** "c" led to inode 7, and leads nowhere, though the inode is still in use. */
  ghost predicate LostAfter(fs: Fs, fs': Fs) {
    && ROOT_SLOT < |fs.t.cache| && Limit(Entries(fs.t.cache)) <= |fs.slots| && Lookup(fs, "c") == 7
    && ROOT_SLOT < |fs'.t.cache| && Limit(Entries(fs'.t.cache)) <= |fs'.slots| && Lookup(fs', "c") == INVALID_INODE
    && 7 in Taken(fs.inodeMap) && 7 in Taken(fs'.inodeMap)
  }

  lemma NameOfD(fs: Fs, n1st: nat)
    requires Left(fs, n1st, {} + {5} + {6})
    ensures Lookup(fs, "d") == 8 && HasEntry(fs, 8)
  {
    assert Letter(3) == "d";
    NameUsed(fs, n1st, {} + {5} + {6}, 8);
  }

  lemma NameOfC(fs: Fs, n1st: nat)
    requires Left(fs, n1st, {} + {5} + {6})
    ensures Lookup(fs, "c") == 7 && 7 in Taken(fs.inodeMap)
  {
    assert Letter(2) == "c";
    NameUsed(fs, n1st, {} + {5} + {6}, 7);
  }

  lemma NameUsed(fs: Fs, n1st: nat, gone: set<nat>, k: nat)
    requires Left(fs, n1st, gone) && 5 <= k <= 8 && k !in gone
    ensures Lookup(fs, Letter(k - 5)) == k && HasEntry(fs, k) && k in Taken(fs.inodeMap)
  {
    LeftName(fs, n1st, gone, k);
    LookupUsed(fs, n1st, Letter(k - 5));
  }

  lemma LastRemovable(fs: Fs, n1st: nat)
    requires Left(fs, n1st, {} + {5} + {6})
    ensures UnlinkLegal(fs, n1st, "d") && Removes(fs, n1st, "d") && Lookup(fs, "d") == 8
    ensures Lookup(fs, "c") == 7 && 7 in Taken(fs.inodeMap)
  {
    NameOfD(fs, n1st);
    NameOfC(fs, n1st);
    assert Letter(3) == "d";
    LetterGood(3);
    Removed1(fs, n1st, "d", 8);
  }

  lemma LastGone(fs: Fs, n1st: nat)
    requires Left(fs, n1st, {} + {5} + {6}) && UnlinkLegal(fs, n1st, "d") && Removes(fs, n1st, "d")
    requires Lookup(fs, "d") == 8 && 7 in Taken(fs.inodeMap)
    ensures var fs' := Unlinked(fs, n1st, "d").0;
             FsOk(fs', n1st) && Lookup(fs', "c") == INVALID_INODE && 7 in Taken(fs'.inodeMap)
  {
    UnlinkedSlots(fs, n1st, "d");
    RemovedIs(fs, n1st, "d");
    LastSlots(fs.slots);
    assert Stripped("c") == "c";
  }

  lemma LastSlots(slots: seq<Entry>)
    requires DirOk(slots, 8) && LeftSlots(slots, {} + {5} + {6})
    ensures SlotOf(slots, 8, 8, 0) == 7
    ensures var (slots', n') := Removed(slots, 8, 8); n' == 5 && Search(slots', n', "c") == INVALID_INODE
  {
    LeftEight(slots);
    ShrinkLosesAFile(slots);
  }

  lemma LeftEight(slots: seq<Entry>)
    requires LeftSlots(slots, {} + {5} + {6})
    ensures LiveAt(slots, 0) && LiveAt(slots, 1) && LiveAt(slots, 2) && LiveAt(slots, 3)
    ensures slots[4] == slots[5] == ZERO_ENTRY
    ensures slots[6] == Entry(7, Padded("c")) && slots[7] == Entry(8, Padded("d"))
  {
    assert Letter(2) == "c" && Letter(3) == "d";
    assert slots[0] == MkfsEntry(0) && slots[1] == MkfsEntry(1) && slots[2] == MkfsEntry(2) && slots[3] == MkfsEntry(3);
    assert 5 in {5} + {6} && 6 in {5} + {6} && 7 !in {5} + {6} && 8 !in {5} + {6};
  }

  // ---------------------------------------------------------------- transfers over the end

  /** After two files are made the second lies right behind the first, so a WRITE over the first one's extent from
      its first byte puts up to a whole extent into the second. */
  lemma OverrunReached(fs: Fs, n1st: nat) returns (run: seq<Fs>, reqs: seq<Request>)
    requires Initial(fs, n1st) && n1st > 0 && |fs.t.filp| > 0 && |fs.sectorMap| >= 12288
    ensures IsRun(run, reqs, n1st) && run[0] == fs && |reqs| == 4 && |run[4].disk| > 5
    ensures var f, g := run[4].disk[4], run[4].disk[5];
            && f.mode == g.mode == I_REGULAR && f.size == 0 && f.nrSects == NR_DEFAULT_FILE_SECTS
            && g.start == f.start + f.nrSects
            && forall disk, data | SECTOR_SIZE * f.start + 2 * FSBUF_SIZE <= |disk| && |data| > FSBUF_SIZE ::
                 Spills(disk, f.start, data)
  {
    run, reqs := StageRun(fs, n1st, 2);
    assert run[4].disk[5 - 1] == StageInode(5, n1st) && run[4].disk[6 - 1] == StageInode(6, n1st);
    var f := run[4].disk[4];
    forall disk, data | SECTOR_SIZE * f.start + 2 * FSBUF_SIZE <= |disk| && |data| > FSBUF_SIZE
      ensures Spills(disk, f.start, data)
    {
      FileIo.FullExtentStop(0);
      FileIo.Overrun(0, |data|, FSBUF_SIZE);
      FileIo.OverrunHitsNeighbour(disk, f.start, NR_DEFAULT_FILE_SECTS, 0, data);
    }
  }

  /** A WRITE of data at position 0 of a full extent that begins at sector start: what does not fit is in the next
      extent. */
  ghost predicate Spills(disk: seq<byte>, start: nat, data: seq<byte>) {
    var n := FileIo.Moved(0, |data|, FSBUF_SIZE);
    && n == Min(|data|, 2 * FSBUF_SIZE) && n > FSBUF_SIZE
    && SECTOR_SIZE * start + n <= |disk|
    && FileIo.FileBytes(FileIo.Splice(disk, SECTOR_SIZE * start, data[..n]), start + NR_DEFAULT_FILE_SECTS,
                        n - FSBUF_SIZE)
       == data[FSBUF_SIZE..n]
  }

  // ---------------------------------------------------------------- READs that grow a file

  /** The first descriptor of process 0 stands at pos in the first file, which has `size` bytes; g is the inode behind
      that of the first file. */
  ghost predicate Standing(fs: Fs, n1st: nat, pos: nat, size: nat, g: Fields) {
    && CloseLegal(fs, n1st, 0, 0) && CanDrop(fs.t, 0, 0) && |fs.disk| == NR_INODES && 5 in Taken(fs.inodeMap)
    && ReadWrite(DescOf(fs, 0, 0).mode) && DescOf(fs, 0, 0).pos == pos && fs.t.cache[DescOf(fs, 0, 0).inode].num == 5
    && fs.disk[5 - 1] == StageInode(5, n1st).(size := size) && fs.disk[6 - 1] == g
  }

  /** A transfer that moves all its bytes. */
  lemma StandMoves(fs: Fs, n1st: nat, pos: nat, size: nat, g: Fields, write: bool, len: nat)
    requires Standing(fs, n1st, pos, size, g) && n1st > 0
    requires FileIo.Moved(pos, len, if write then FSBUF_SIZE else size) == len
    ensures Legal(fs, n1st, Transfer(0, 0, write, len))
    ensures Standing(Handled(fs, n1st, Transfer(0, 0, write, len)), n1st, pos + len, Max(size, pos + len), g)
  {
    var q := Transfer(0, 0, write, len);
    CachedInode(fs, n1st, DescOf(fs, 0, 0).inode);
    assert Transfers(fs, q) && Target(fs, q) == fs.disk[5 - 1];
    MovesLegal(fs, n1st, q);
    StandsAfter(fs, n1st, q, pos);
  }

  lemma MovesLegal(fs: Fs, n1st: nat, q: Request)
    requires q.Transfer? && CloseLegal(fs, n1st, q.p, q.fd) && Transfers(fs, q) && Target(fs, q).mode == I_REGULAR
    ensures Legal(fs, n1st, q)
  {
  }

  lemma StandsAfter(fs: Fs, n1st: nat, q: Request, pos: nat)
    requires n1st > 0 && q.Transfer? && q.p == q.fd == 0 && Legal(fs, n1st, q) && Transfers(fs, q)
    requires DescOf(fs, 0, 0).pos == pos && Count(fs, q) == q.len
    ensures var fs' := Handled(fs, n1st, q); var s := DescOf(fs, 0, 0).inode;
            var f := Target(fs, q).(size := Max(Target(fs, q).size, pos + q.len));
            && CloseLegal(fs', n1st, 0, 0) && CanDrop(fs'.t, 0, 0) && fs'.inodeMap == fs.inodeMap
            && DescOf(fs', 0, 0) == DescOf(fs, 0, 0).(pos := pos + q.len)
            && fs'.t.cache[s].num == fs.t.cache[s].num && 0 < fs.t.cache[s].num <= |fs.disk|
            && fs'.disk == fs.disk[fs.t.cache[s].num - 1 := f]
  {
    TransferKeeps(fs, n1st, 0, 0, q.write, q.len);
    ShiftedIs(fs, n1st, 0, 0, q.len);
    HeldCanDrop(Handled(fs, n1st, q).t, 0, 0);
  }

  /** A run goes on with such a transfer. */
  lemma StandStep(run: seq<Fs>, reqs: seq<Request>, n1st: nat, pos: nat, size: nat, g: Fields, write: bool, len: nat)
      returns (run': seq<Fs>, reqs': seq<Request>)
    requires IsRun(run, reqs, n1st) && Standing(run[|reqs|], n1st, pos, size, g)
    requires FileIo.Moved(pos, len, if write then FSBUF_SIZE else size) == len
    ensures IsRun(run', reqs', n1st) && reqs' == reqs + [Transfer(0, 0, write, len)] && |run'| == |reqs'| + 1
    ensures run'[..|run|] == run && Standing(run'[|reqs'|], n1st, pos + len, Max(size, pos + len), g)
  {
    var q := Transfer(0, 0, write, len);
    StandMoves(run[|reqs|], n1st, pos, size, g, write, len);
    run', reqs' := OneStep(run, reqs, n1st, q, Handled(run[|reqs|], n1st, q));
  }

  /** Two requests from mkfs lead to a file that nobody wrote to and that is one byte long. */
  lemma ReadGrowsEmpty(fs: Fs, n1st: nat) returns (run: seq<Fs>, reqs: seq<Request>)
    requires Initial(fs, n1st) && n1st > 0 && |fs.t.filp| > 0 && |fs.sectorMap| >= 12288
    ensures IsRun(run, reqs, n1st) && run[0] == fs && reqs == [Open(0, Letter(0), MAKE), Transfer(0, 0, false, 1)]
    ensures |run[2].disk| > 5 && Standing(run[1], n1st, 0, 0, run[2].disk[5])
            && Standing(run[2], n1st, 1, 1, run[2].disk[5])
  {
    run, reqs := FirstMade(fs, n1st);
    FileIo.Overrun(0, 1, 0);
    run, reqs := StandStep(run, reqs, n1st, 0, 0, run[1].disk[5], false, 1);
  }

  lemma FirstMade(fs: Fs, n1st: nat) returns (run: seq<Fs>, reqs: seq<Request>)
    requires Initial(fs, n1st) && n1st > 0 && |fs.t.filp| > 0 && |fs.sectorMap| >= 12288
    ensures IsRun(run, reqs, n1st) && run[0] == fs && reqs == [Open(0, Letter(0), MAKE)]
    ensures |run[1].disk| > 5 && Standing(run[1], n1st, 0, 0, run[1].disk[5])
  {
    StageZero(fs, n1st);
    var fs1, fs2 := MakeOne(fs, n1st, 0);
    NewEmpty(fs, n1st, fs1);
    OpenStep(fs, n1st, Letter(0), fs1);
    FirstStep(fs, n1st, Open(0, Letter(0), MAKE));
    run, reqs := [fs, fs1], [Open(0, Letter(0), MAKE)];
  }

  lemma NewEmpty(fs: Fs, n1st: nat, fs1: Fs)
    requires Stage(fs, n1st, 0) && n1st > 0 && OpenLegal(fs, n1st, 0, Letter(0), MAKE)
    requires Opened(fs, n1st, 0, Letter(0), MAKE) == (fs1, 0)
    ensures |fs1.disk| > 5 && Standing(fs1, n1st, 0, 0, fs1.disk[5])
  {
    RoomForMore(fs, n1st, 0);
    NewDescriptor(fs, n1st, fs1);
    OpenTaken(fs, n1st, 0, Letter(0), MAKE);
    MadeInodes(fs, n1st, 0);
    assert fs1.disk[5 - 1] == StageInode(5, n1st);
    StandsEmpty(fs1, n1st);
  }

  lemma StandsEmpty(fs: Fs, n1st: nat)
    requires FsOk(fs, n1st) && OpenedAt(fs, 0, 0, MAKE, 5) && 5 in Taken(fs.inodeMap)
    requires |fs.disk| == NR_INODES && fs.disk[5 - 1] == StageInode(5, n1st)
    ensures Standing(fs, n1st, 0, 0, fs.disk[5])
  {
    DescriptorStands(fs, n1st, MAKE, 5);
    assert fs.disk[5 - 1] == StageInode(5, n1st).(size := 0);
  }

  lemma NewDescriptor(fs: Fs, n1st: nat, fs1: Fs)
    requires n1st > 0 && OpenLegal(fs, n1st, 0, Letter(0), MAKE) && MakesFile(fs, Letter(0), MAKE)
    requires FirstClear(fs.inodeMap, 0) == 5 && Opened(fs, n1st, 0, Letter(0), MAKE) == (fs1, 0)
    ensures FsOk(fs1, n1st) && OpenedAt(fs1, 0, 0, MAKE, 5)
  {
    MadeAt(fs, n1st, 0, Letter(0), MAKE);
  }

  lemma DescriptorStands(fs: Fs, n1st: nat, flags: nat, k: nat)
    requires FsOk(fs, n1st) && OpenedAt(fs, 0, 0, flags, k)
    ensures CloseLegal(fs, n1st, 0, 0) && CanDrop(fs.t, 0, 0)
    ensures var d := DescOf(fs, 0, 0); d.mode == flags && d.pos == 0 && fs.t.cache[d.inode].num == k
  {
    HeldCanDrop(fs.t, 0, 0);
  }

  const O_RDWR := 2

  /** The first file opened again, once two are made. */
  lemma Reopened(fs: Fs, n1st: nat)
    requires Stage(fs, n1st, 2) && n1st > 0
    ensures Legal(fs, n1st, Open(0, Letter(0), O_RDWR))
    ensures Standing(Handled(fs, n1st, Open(0, Letter(0), O_RDWR)), n1st, 0, 0, StageInode(6, n1st))
  {
    FirstName(fs, n1st);
    assert fs.t.cache[1].cnt == 0;
    assert FreeSlot(fs.t.cache, 0) >= 0 && FreeFd(fs.t.filp[0], 0) == 0 && FreeDesc(fs.t.descs, 0) == 0;
    OpenHolds(fs, n1st, 0, Letter(0), O_RDWR);
    DescriptorStands(Opened(fs, n1st, 0, Letter(0), O_RDWR).0, n1st, O_RDWR, 5);
    assert fs.disk[5 - 1] == StageInode(5, n1st) && fs.disk[6 - 1] == StageInode(6, n1st);
  }

  lemma FirstName(fs: Fs, n1st: nat)
    requires Stage(fs, n1st, 2)
    ensures GoodPath(Letter(0)) && Lookup(fs, Letter(0)) == 5
  {
    LetterGood(0);
    assert NamedAt(fs.slots, 4, Letter(0)) && fs.slots[4] == StageEntry(4, 2);
    SearchExact(fs.slots, 6, Letter(0));
  }

  lemma ReopenRun(fs: Fs, n1st: nat) returns (run: seq<Fs>, reqs: seq<Request>)
    requires Initial(fs, n1st) && n1st > 0 && |fs.t.filp| > 0 && |fs.sectorMap| >= 12288
    ensures IsRun(run, reqs, n1st) && run[0] == fs && |reqs| == 5
    ensures Standing(run[5], n1st, 0, 0, StageInode(6, n1st))
  {
    run, reqs := StageRun(fs, n1st, 2);
    var q := Open(0, Letter(0), O_RDWR);
    Reopened(run[4], n1st);
    run, reqs := OneStep(run, reqs, n1st, q, Handled(run[4], n1st, q));
  }

  /** A run of seven requests in which a READ at the end of a full extent makes the first file a byte longer than its
      extent; that byte is the first of the second file, and a WRITE to the second changes the first. */
  lemma GrownOver(fs: Fs, n1st: nat) returns (run: seq<Fs>, reqs: seq<Request>)
    requires Initial(fs, n1st) && n1st > 0 && |fs.t.filp| > 0 && |fs.sectorMap| >= 12288
    ensures IsRun(run, reqs, n1st) && run[0] == fs && |reqs| == 7 && |run[7].disk| > 5
    ensures reqs[5] == Transfer(0, 0, true, FSBUF_SIZE) && reqs[6] == Transfer(0, 0, false, 1)
    ensures var f, g := run[7].disk[4], run[7].disk[5];
            && f == StageInode(5, n1st).(size := FSBUF_SIZE + 1) && g == StageInode(6, n1st)
            && forall disk: seq<byte> | SECTOR_SIZE * g.start + 1 <= |disk| ::
                 !FileIo.LeavesAlone(disk, SECTOR_SIZE * g.start, 1, f.start, f.size)
  {
    run, reqs := ReopenRun(fs, n1st);
    FileIo.MovedExact(0, FSBUF_SIZE, FSBUF_SIZE);
    run, reqs := StandStep(run, reqs, n1st, 0, 0, StageInode(6, n1st), true, FSBUF_SIZE);
    FileIo.Overrun(FSBUF_SIZE, 1, FSBUF_SIZE);
    run, reqs := StandStep(run, reqs, n1st, FSBUF_SIZE, FSBUF_SIZE, StageInode(6, n1st), false, 1);
    NotAlone(run[7].disk[4], run[7].disk[5]);
  }

  lemma NotAlone(f: Fields, g: Fields)
    requires g.start == f.start + NR_DEFAULT_FILE_SECTS && f.size == FSBUF_SIZE + 1
    ensures forall disk: seq<byte> | SECTOR_SIZE * g.start + 1 <= |disk| ::
              !FileIo.LeavesAlone(disk, SECTOR_SIZE * g.start, 1, f.start, f.size)
  {
    forall disk: seq<byte> | SECTOR_SIZE * g.start + 1 <= |disk|
      ensures !FileIo.LeavesAlone(disk, SECTOR_SIZE * g.start, 1, f.start, f.size)
    {
      FileIo.LeavesAloneExact(disk, SECTOR_SIZE * g.start, 1, f.start, f.size);
    }
  }
}
