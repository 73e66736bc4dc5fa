/** The life of a file: created, closed and unlinked, it leaves maps, names and counts as they were. */
module FileLife {
  import opened Base
  import opened Bits
  import opened Extents
  import opened InodeCache
  import opened Directory
  import opened Refs
  import opened Files
  import opened FileOps
  import opened Requests

  lemma {:induction false} LiveBeforePlace(slots: seq<Entry>, n: nat, i: nat)
    requires i <= n <= |slots|
    ensures forall k | i <= k < Place(slots, n, i) :: slots[k].inodeNr != INVALID_INODE
    decreases n - i
  {
    if i < n && slots[i].inodeNr != INVALID_INODE { LiveBeforePlace(slots, n, i + 1); }
  }

  lemma OnlySlot(slots: seq<Entry>, n: nat, k: nat, e: nat)
    requires e < n <= |slots| && slots[e].inodeNr == k && forall i | 0 <= i < n && i != e :: slots[i].inodeNr != k
    ensures SlotOf(slots, n, k, 0) == e
  {
  }

  /** Taking out what was just entered leaves no file behind the end. */
  lemma NoHoleAfterAdd(slots: seq<Entry>, n: nat, used: set<nat>, k: nat, name: seq<char>)
    requires SlotsHold(slots, used) && n < |slots| && |name| < MAX_FILENAME_LEN && k != INVALID_INODE && k !in used
    ensures var e := Place(slots, n, 0); var (slots', n') := Added(slots, n, k, name);
            && n' <= |slots'| && e < n' && SlotOf(slots', n', k, 0) == e
            && NoHoleBefore(slots', e)
  {
    var e := Place(slots, n, 0);
    var (slots', n') := Added(slots, n, k, name);
    forall i | 0 <= i < n' && i != e ensures slots'[i].inodeNr != k {
      assert LiveAt(slots, i) ==> slots[i].inodeNr in used;
    }
    OnlySlot(slots', n', k, e);
    LiveBeforePlace(slots, n, 0);
  }

  lemma NewFileIs(fs: Fs, n1st: nat, path: seq<char>)
    requires FsOk(fs, n1st) && n1st > 0 && GoodPath(path) && CanAllocate(fs)
    ensures var c := NewFile(fs, n1st, path); var k, b := FirstClear(fs.inodeMap, 0), FirstClear(fs.sectorMap, 0);
            && 1 < k <= |c.disk| && c.disk[k - 1] == NewFields(fs, n1st) && b > 0 && k !in Taken(fs.inodeMap)
            && c.inodeMap == Fill(fs.inodeMap, k, k + 1, true)
            && c.sectorMap == Fill(fs.sectorMap, b, b + NR_DEFAULT_FILE_SECTS, true)
  {
    AllocatedIs(fs, n1st);
    AllocateParts(fs, n1st);
    assert fs.sectorMap[0];
  }

  lemma NewFileEntry(fs: Fs, n1st: nat, path: seq<char>)
    requires FsOk(fs, n1st) && n1st > 0 && GoodPath(path) && CanAllocate(fs)
    ensures var c := NewFile(fs, n1st, path); var k := FirstClear(fs.inodeMap, 0);
            ROOT_SLOT < |c.t.cache| && Entries(c.t.cache) <= |c.slots| && NoHole(c, k)
  {
    AllocateParts(fs, n1st);
    var a, k := Allocated(fs, n1st), FirstClear(fs.inodeMap, 0);
    EnteredNames(a, k, Stripped(path));
    NoHoleAfterAdd(a.slots, Entries(a.t.cache), Taken(fs.inodeMap), k, Stripped(path));
  }

  lemma MadeFile(fs: Fs, n1st: nat, p: nat, path: seq<char>, flags: nat)
    requires OpenLegal(fs, n1st, p, path, flags) && n1st > 0 && MakesFile(fs, path, flags) && Named(fs)
    ensures var (fs', fd) := Opened(fs, n1st, p, path, flags); var k := FirstClear(fs.inodeMap, 0);
            && CloseLegal(fs', n1st, p, fd) && Lookup(fs', path) == k && k in Taken(fs'.inodeMap)
            && Taken(fs'.inodeMap) == Taken(fs.inodeMap) + {k} && NoHole(fs', k)
  {
    CreateNames(fs, n1st, p, path, flags);
    CreateKeeps(fs, n1st, path);
    NewFileEntry(fs, n1st, path);
  }

  /** The one reference to the new inode is the new descriptor. */
  lemma MadeReference(fs: Fs, n1st: nat, p: nat, path: seq<char>, flags: nat)
    requires OpenLegal(fs, n1st, p, path, flags) && n1st > 0 && MakesFile(fs, path, flags)
    ensures var (fs', fd) := Opened(fs, n1st, p, path, flags); var k := FirstClear(fs.inodeMap, 0);
            var s := SlotFor(fs.t.cache, k);
            && FsOk(fs', n1st) && 0 <= fd && HeldBy(fs'.t, s, p, fd) && fs'.t.cache[s].cnt == 1
               && fs'.t.cache[s].num == k
  {
    OpenKeeps(fs, n1st, p, path, flags);
    CreateKeeps(fs, n1st, path);
    AllocatedIs(fs, n1st);
  }

  /** Closing the last descriptor on a regular file makes it removable. */
  lemma LastCloseFrees(fs: Fs, n1st: nat, p: nat, fd: nat, path: seq<char>, k: nat, s: nat)
    requires CloseLegal(fs, n1st, p, fd) && HeldBy(fs.t, s, p, fd) && s < NR_INODE && fs.t.cache[s].cnt == 1
             && fs.t.cache[s].num == k
    requires GoodPath(path) && Lookup(fs, path) == k && Names(fs, path) && k in Taken(fs.inodeMap) && HasEntry(fs, k)
    requires k <= |fs.disk| && fs.disk[k - 1].mode == I_REGULAR
    ensures var fs' := Closed(fs, n1st, p, fd);
            UnlinkLegal(fs', n1st, path) && Removes(fs', n1st, path) && Lookup(fs', path) == k
                && Taken(fs'.inodeMap) == Taken(fs.inodeMap)
  {
    CloseKeeps(fs, n1st, p, fd);
    HeldCanDrop(fs.t, p, fd);
    var fs' := Closed(fs, n1st, p, fd);
    assert fs'.t.cache == fs.t.cache[s := Inode(k, 0, fs.t.cache[s].f)];
    assert fs'.t.cache[s].cnt == 0;
    assert FreeSlot(fs'.t.cache, 0) >= 0;
    FreshlyGotten(fs', n1st, k);
  }

  lemma RemovedMaps(fs: Fs, n1st: nat, path: seq<char>)
    requires UnlinkLegal(fs, n1st, path) && Removes(fs, n1st, path)
    ensures var fs' := Unlinked(fs, n1st, path).0; var k := Lookup(fs, path);
            && 0 < k <= |fs.disk|
            && var b := fs.disk[k - 1].start - n1st + 1;
               && fs'.inodeMap == Fill(fs.inodeMap, k, k + 1, false)
               && fs'.sectorMap == Fill(fs.sectorMap, b, b + fs.disk[k - 1].nrSects, false)
  {
    LookupUsed(fs, n1st, path);
    FreshlyGotten(fs, n1st, Lookup(fs, path));
    FreedReady(fs, n1st, path);
  }

  /** Unlinking a file that was just made gives the maps back. */
  lemma MapsBack(fs2: Fs, n1st: nat, path: seq<char>, inodeMap: seq<bool>, sectorMap: seq<bool>, k: nat, b: nat)
    requires UnlinkLegal(fs2, n1st, path) && Removes(fs2, n1st, path)
    requires k < |inodeMap| && !inodeMap[k] && AllClear(sectorMap, b, b + NR_DEFAULT_FILE_SECTS)
    requires Lookup(fs2, path) == k && 0 < k <= |fs2.disk|
    requires fs2.disk[k - 1].start - n1st + 1 == b && fs2.disk[k - 1].nrSects == NR_DEFAULT_FILE_SECTS
    requires fs2.inodeMap == Fill(inodeMap, k, k + 1, true)
    requires fs2.sectorMap == Fill(sectorMap, b, b + NR_DEFAULT_FILE_SECTS, true)
    ensures var fs3 := Unlinked(fs2, n1st, path).0; fs3.inodeMap == inodeMap && fs3.sectorMap == sectorMap
  {
    RemovedMaps(fs2, n1st, path);
    FillBack(inodeMap, k, k + 1);
    FillBack(sectorMap, b, b + NR_DEFAULT_FILE_SECTS);
  }

  /** A state `made` as create_file leaves it from fs, once closed. */
  ghost predicate JustMade(fs: Fs, made: Fs, n1st: nat, path: seq<char>) {
    var k, b := FirstClear(fs.inodeMap, 0), FirstClear(fs.sectorMap, 0);
    && FsOk(fs, n1st) && UnlinkLegal(made, n1st, path) && Removes(made, n1st, path)
    && k < |fs.inodeMap| && AllClear(fs.sectorMap, b, b + NR_DEFAULT_FILE_SECTS) && b > 0
    && Lookup(made, path) == k && 0 < k <= |made.disk| && k !in Taken(fs.inodeMap)
       && Taken(made.inodeMap) == Taken(fs.inodeMap) + {k}
    && made.disk[k - 1].start - n1st + 1 == b && made.disk[k - 1].nrSects == NR_DEFAULT_FILE_SECTS
    && made.inodeMap == Fill(fs.inodeMap, k, k + 1, true)
    && made.sectorMap == Fill(fs.sectorMap, b, b + NR_DEFAULT_FILE_SECTS, true)
  }

  lemma CreateThenClose(fs: Fs, n1st: nat, p: nat, path: seq<char>, flags: nat)
    requires OpenLegal(fs, n1st, p, path, flags) && n1st > 0 && MakesFile(fs, path, flags) && Named(fs)
    ensures var (fs1, fd) := Opened(fs, n1st, p, path, flags);
            CloseLegal(fs1, n1st, p, fd) && JustMade(fs, Closed(fs1, n1st, p, fd), n1st, path)
  {
    var (fs1, fd) := Opened(fs, n1st, p, path, flags);
    MadeFile(fs, n1st, p, path, flags);
    MadeReference(fs, n1st, p, path, flags);
    NewFileIs(fs, n1st, path);
    LastCloseFrees(fs1, n1st, p, fd, path, FirstClear(fs.inodeMap, 0), SlotFor(fs.t.cache, FirstClear(fs.inodeMap, 0)));
  }

  lemma UnlinkJustMade(fs: Fs, made: Fs, n1st: nat, path: seq<char>)
    requires JustMade(fs, made, n1st, path)
    ensures var (fs3, r) := Unlinked(made, n1st, path);
            && r == 0 && FsOk(fs3, n1st) && fs3.inodeMap == fs.inodeMap && fs3.sectorMap == fs.sectorMap
            && Taken(fs3.inodeMap) == Taken(fs.inodeMap)
  {
    var k, b := FirstClear(fs.inodeMap, 0), FirstClear(fs.sectorMap, 0);
    MapsBack(made, n1st, path, fs.inodeMap, fs.sectorMap, k, b);
    UnlinkKeeps(made, n1st, path);
    RemovedCounts(made, n1st, path);
    assert Taken(Unlinked(made, n1st, path).0.inodeMap) == Taken(fs.inodeMap) + {k} - {k};
  }

  /** Creating a file, closing it and unlinking it: the unlink succeeds, both maps, the numbers in use and the meaning
      of every name are what they were before. */
  lemma CreateCloseUnlink(fs: Fs, n1st: nat, p: nat, path: seq<char>, flags: nat)
    requires OpenLegal(fs, n1st, p, path, flags) && n1st > 0 && MakesFile(fs, path, flags) && Named(fs)
    ensures var (fs1, fd) := Opened(fs, n1st, p, path, flags);
            && CloseLegal(fs1, n1st, p, fd)
            && var fs2 := Closed(fs1, n1st, p, fd);
               && UnlinkLegal(fs2, n1st, path)
               && var (fs3, r) := Unlinked(fs2, n1st, path);
                  && r == 0 && FsOk(fs3, n1st) && fs3.inodeMap == fs.inodeMap && fs3.sectorMap == fs.sectorMap
                  && Taken(fs3.inodeMap) == Taken(fs.inodeMap)
                     && forall other | GoodPath(other) :: Lookup(fs3, other) == Lookup(fs, other)
  {
    var (fs1, fd) := Opened(fs, n1st, p, path, flags);
    CreateThenClose(fs, n1st, p, path, flags);
    var fs2 := Closed(fs1, n1st, p, fd);
    UnlinkJustMade(fs, fs2, n1st, path);
    CreateNames(fs, n1st, p, path, flags);
    ClosedNamed(fs1, n1st, p, fd);
    JustMadeTidy(fs, n1st, p, path, flags);
    UnlinkNames(fs2, n1st, path);
    TidySeen(fs2, Lookup(fs2, path));
  }

  lemma ClosedNamed(fs: Fs, n1st: nat, p: nat, fd: nat)
    requires CloseLegal(fs, n1st, p, fd) && Named(fs)
    ensures ROOT_SLOT < |Closed(fs, n1st, p, fd).t.cache| && Named(Closed(fs, n1st, p, fd))
  {
    HeldCanDrop(fs.t, p, fd);
  }

  lemma JustMadeTidy(fs: Fs, n1st: nat, p: nat, path: seq<char>, flags: nat)
    requires OpenLegal(fs, n1st, p, path, flags) && n1st > 0 && MakesFile(fs, path, flags) && Named(fs)
    ensures var (fs1, fd) := Opened(fs, n1st, p, path, flags);
            CloseLegal(fs1, n1st, p, fd) && ROOT_SLOT < |Closed(fs1, n1st, p, fd).t.cache|
            && Entries(Closed(fs1, n1st, p, fd).t.cache) <= |Closed(fs1, n1st, p, fd).slots|
            && NoHole(Closed(fs1, n1st, p, fd), FirstClear(fs.inodeMap, 0))
  {
    MadeFile(fs, n1st, p, path, flags);
    var (fs1, fd) := Opened(fs, n1st, p, path, flags);
    HeldCanDrop(fs1.t, p, fd);
  }

  /** Without a hole everything in front of the removed entry can still be seen. */
  lemma TidySeen(fs: Fs, k: nat)
    requires ROOT_SLOT < |fs.t.cache| && Entries(fs.t.cache) <= |fs.slots| && NoHole(fs, k)
    ensures AllSeen(fs, k)
  {
    CountIsEnd(fs.slots, SlotOf(fs.slots, Entries(fs.t.cache), k, 0));
  }
}
