/** What each request of the file server changes and what it leaves alone, said of the tables themselves. */
module Effects {
  import opened Base
  import opened Bits
  import opened Extents
  import opened InodeCache
  import opened Directory
  import opened Refs
  import opened Files
  import opened FileOps
  import opened Requests
  import FileLife

  // ---------------------------------------------------------------- the scans stop at the first

  lemma {:induction false} FirstFd(row: seq<int>, i: nat)
    requires i <= |row|
    ensures forall x | i <= x < FreeFd(row, i) :: row[x] != -1
    decreases |row| - i
  {
    if i < |row| && row[i] != NIL { FirstFd(row, i + 1); }
  }

  lemma {:induction false} FirstDesc(descs: seq<Desc>, i: nat)
    requires i <= |descs|
    ensures forall x | i <= x < FreeDesc(descs, i) :: descs[x].inode != -1
    decreases |descs| - i
  {
    if i < |descs| && descs[i].inode != NIL { FirstDesc(descs, i + 1); }
  }

  lemma {:induction false} FirstSlot(cache: seq<Inode>, i: nat)
    requires i <= |cache|
    ensures forall x | i <= x < FreeSlot(cache, i) :: cache[x].cnt > 0
    decreases |cache| - i
  {
    if i < |cache| && cache[i].cnt > 0 { FirstSlot(cache, i + 1); }
  }

  // ---------------------------------------------------------------- do_open

  /** The entry fd of process p was the first free one of its row, and points at what was the first free descriptor,
      which is now one on slot s at position 0; no other entry or descriptor has changed. */
  predicate TookFirst(t: Tables, t': Tables, p: nat, fd: nat, flags: nat, s: nat) {
    && p < |t.filp| == |t'.filp| && fd < |t.filp[p]| == |t'.filp[p]| && t.filp[p][fd] == -1
    && (forall x | 0 <= x < fd :: t.filp[p][x] != -1)
    && var d := t'.filp[p][fd];
       && 0 <= d < |t.descs| && t.descs[d].inode == -1 && (forall x | 0 <= x < d :: t.descs[x].inode != -1)
       && t'.filp == t.filp[p := t.filp[p][fd := d]] && t'.descs == t.descs[d := Desc(flags, 0, 1, s)]
  }

  /** Slot s counts one reference more; it was in use, or the first that was not. */
  predicate TookSlot(cache: seq<Inode>, cache': seq<Inode>, s: nat) {
    && s < |cache| == |cache'| && cache'[s].cnt == cache[s].cnt + 1
    && (cache[s].cnt == 0 ==> forall x | 0 <= x < s :: cache[x].cnt > 0)
    && forall x | 0 <= x < |cache| && x != s :: cache'[x].cnt == cache[x].cnt && cache'[x].num == cache[x].num
  }

  lemma AttachedEffect(fs: Fs, p: nat, s: nat, flags: nat)
    requires p < |fs.t.filp| && FreeFd(fs.t.filp[p], 0) < |fs.t.filp[p]| && FreeDesc(fs.t.descs, 0) < |fs.t.descs|
    requires s < |fs.t.cache|
    ensures TookFirst(fs.t, Attached(fs, p, s, flags).t, p, FreeFd(fs.t.filp[p], 0), flags, s)
  {
    FirstFd(fs.t.filp[p], 0);
    FirstDesc(fs.t.descs, 0);
  }

  lemma SlotEffect(cache: seq<Inode>, k: nat)
    requires SlotFor(cache, k) >= 0
    ensures cache[SlotFor(cache, k)].cnt == 0 ==> forall x | 0 <= x < SlotFor(cache, k) :: cache[x].cnt > 0
  {
    FirstSlot(cache, 0);
  }

  /** An open that succeeds takes the caller's first free entry, the first free descriptor and, if the inode is not
      cached, the first free slot; without O_CREAT disk, maps and directory stay as they are. */
  lemma OpenEffect(fs: Fs, n1st: nat, p: nat, path: seq<char>, flags: nat) returns (s: nat)
    requires OpenLegal(fs, n1st, p, path, flags) && n1st > 0 && Opened(fs, n1st, p, path, flags).1 >= 0
    ensures var (fs', fd) := Opened(fs, n1st, p, path, flags);
            && TookFirst(fs.t, fs'.t, p, fd, flags, s) && TookSlot(fs.t.cache, fs'.t.cache, s)
            && (flags % 2 == 0 ==> fs'.disk == fs.disk && fs'.inodeMap == fs.inodeMap
                                   && fs'.sectorMap == fs.sectorMap && fs'.slots == fs.slots)
  {
    if MakesFile(fs, path, flags) {
      var k := FirstClear(fs.inodeMap, 0);
      s := SlotFor(fs.t.cache, k);
      CreateKeeps(fs, n1st, path);
      CreatedCache(fs, n1st, path);
      SlotEffect(fs.t.cache, k);
      var c := NewFile(fs, n1st, path);
      AttachedEffect(c, p, s, flags);
    } else {
      var k := Lookup(fs, path);
      s := SlotFor(fs.t.cache, k);
      LookupUsed(fs, n1st, path);
      GottenCounts(fs.t.cache, fs.disk, k);
      GottenOk(fs.t.cache, fs.disk, k);
      SlotEffect(fs.t.cache, k);
      AttachedEffect(Got(fs, k), p, s, flags);
    }
  }

  lemma CreatedCache(fs: Fs, n1st: nat, path: seq<char>)
    requires FsOk(fs, n1st) && n1st > 0 && GoodPath(path) && CanAllocate(fs)
    ensures var c := NewFile(fs, n1st, path); var s := SlotFor(fs.t.cache, FirstClear(fs.inodeMap, 0));
            && |c.t.cache| == |fs.t.cache|
            && forall x | 0 <= x < |c.t.cache| && x != s :: c.t.cache[x].num == fs.t.cache[x].num
  {
    AllocatedIs(fs, n1st);
    AllocateParts(fs, n1st);
  }

  /** A file that is created takes the lowest free number and, from the lowest free bit on, an extent of 2048 sectors;
      its inode is that of an empty regular file. */
  lemma CreateEffect(fs: Fs, n1st: nat, p: nat, path: seq<char>, flags: nat) returns (k: nat, b: nat)
    requires OpenLegal(fs, n1st, p, path, flags) && n1st > 0
    requires flags % 2 == 1 && Opened(fs, n1st, p, path, flags).1 >= 0
    ensures var fs' := Opened(fs, n1st, p, path, flags).0;
            && 0 < k < |fs.inodeMap| && !fs.inodeMap[k] && (forall j | 0 <= j < k :: fs.inodeMap[j])
            && fs'.inodeMap == fs.inodeMap[k := true]
            && 0 < b < |fs.sectorMap| == |fs'.sectorMap| && (forall j | 0 <= j < b :: fs.sectorMap[j])
            && (forall j | 0 <= j < |fs.sectorMap| :: fs'.sectorMap[j] == (fs.sectorMap[j] || b <= j < b + 2048))
            && (forall j | b <= j < b + 2048 :: j < |fs.sectorMap| && !fs.sectorMap[j])
            && k <= |fs'.disk| == |fs.disk| && fs'.disk[k - 1] == Fields(0x8000, 0, n1st + b - 1, 2048)
            && (forall x | 0 < x < |fs.disk| && x != k - 1 :: fs'.disk[x] == fs.disk[x])
  {
    k, b := FirstClear(fs.inodeMap, 0), FirstClear(fs.sectorMap, 0);
    FileLife.NewFileIs(fs, n1st, path);
    var fs' := Opened(fs, n1st, p, path, flags).0;
    CreatedDisk(fs, n1st, path);
    assert fs'.inodeMap == NewFile(fs, n1st, path).inodeMap && fs'.sectorMap == NewFile(fs, n1st, path).sectorMap;
  }

  lemma CreatedDisk(fs: Fs, n1st: nat, path: seq<char>)
    requires FsOk(fs, n1st) && n1st > 0 && GoodPath(path) && CanAllocate(fs)
    ensures var c := NewFile(fs, n1st, path); var k := FirstClear(fs.inodeMap, 0);
            |c.disk| == |fs.disk| && forall x | 0 < x < |fs.disk| && x != k - 1 :: c.disk[x] == fs.disk[x]
  {
    AllocatedIs(fs, n1st);
    AllocateParts(fs, n1st);
  }

  /** ... and its entry goes to the first free slot of the root directory, or to the one behind the last, and then the
      directory is one entry longer. */
  lemma EntryEffect(fs: Fs, n1st: nat, p: nat, path: seq<char>, flags: nat) returns (e: nat)
    requires OpenLegal(fs, n1st, p, path, flags) && n1st > 0
    requires flags % 2 == 1 && Opened(fs, n1st, p, path, flags).1 >= 0
    ensures var fs' := Opened(fs, n1st, p, path, flags).0; var n := fs.t.cache[0].f.size / 16;
            && e <= n < |fs.slots| && (forall i | 0 <= i < e :: fs.slots[i].inodeNr != 0)
            && (e < n ==> fs.slots[e].inodeNr == 0)
            && |fs'.slots| == |fs.slots| && (forall i | 0 <= i < |fs.slots| && i != e :: fs'.slots[i] == fs.slots[i])
            && fs'.slots[e].inodeNr > 1 && fs'.slots[e].inodeNr !in Taken(fs.inodeMap)
            && |fs'.t.cache| > 0 && fs'.t.cache[0].f.size / 16 == if e == n then n + 1 else n
  {
    var c, n := NewFile(fs, n1st, path), Entries(fs.t.cache);
    e := Place(fs.slots, n, 0);
    FileLife.LiveBeforePlace(fs.slots, n, 0);
    EntryMade(fs, n1st, path);
    var fs' := Opened(fs, n1st, p, path, flags).0;
    assert fs'.slots == c.slots && fs'.t.cache == c.t.cache;
  }

  lemma EntryMade(fs: Fs, n1st: nat, path: seq<char>)
    requires FsOk(fs, n1st) && n1st > 0 && GoodPath(path) && CanAllocate(fs)
    ensures var c, n, k := NewFile(fs, n1st, path), Entries(fs.t.cache), FirstClear(fs.inodeMap, 0);
            && |c.t.cache| > 0 && n < |fs.slots| && k > 1 && k !in Taken(fs.inodeMap)
            && (c.slots, Entries(c.t.cache)) == Added(fs.slots, n, k, Stripped(path))
  {
    AllocateParts(fs, n1st);
    AllocatedIs(fs, n1st);
    EnteredNames(Allocated(fs, n1st), FirstClear(fs.inodeMap, 0), Stripped(path));
  }

  // ---------------------------------------------------------------- do_close, fs_fork, fs_exit

  /** do_close empties the one entry and takes one reference from the descriptor and one from its inode; the last one
      frees the descriptor. */
  lemma CloseEffect(fs: Fs, n1st: nat, p: nat, fd: nat)
    requires CloseLegal(fs, n1st, p, fd)
    ensures var fs' := Closed(fs, n1st, p, fd); var d := fs.t.filp[p][fd];
            && 0 <= d < |fs.t.descs| && var e := fs.t.descs[d]; var s := e.inode;
            && e.cnt > 0 && 0 <= s < |fs.t.cache| && fs.t.cache[s].cnt > 0
            && fs'.t.filp == fs.t.filp[p := fs.t.filp[p][fd := -1]]
            && fs'.t.descs == fs.t.descs[d := Desc(e.mode, e.pos, e.cnt - 1, if e.cnt == 1 then -1 else s)]
            && fs'.t.cache == fs.t.cache[s := fs.t.cache[s].(cnt := fs.t.cache[s].cnt - 1)]
            && fs'.disk == fs.disk && fs'.inodeMap == fs.inodeMap && fs'.sectorMap == fs.sectorMap
            && fs'.slots == fs.slots
  {
    HeldCanDrop(fs.t, p, fd);
  }

  /** do_lseek moves the position of the one descriptor to a place in the file, its end included, counted from the
      beginning, the position or the end, and changes nothing when there is no such place. */
  lemma SeekEffect(fs: Fs, n1st: nat, p: nat, fd: nat, whence: int, off: int)
    requires CloseLegal(fs, n1st, p, fd) && 1 <= whence <= 3 && CanDrop(fs.t, p, fd)
    ensures var (fs', r) := Sought(fs, n1st, p, fd, whence, off);
            var d := fs.t.filp[p][fd]; var size := fs.t.cache[fs.t.descs[d].inode].f.size;
            var to := off + if whence == 1 then 0 else if whence == 2 then fs.t.descs[d].pos else size;
            if 0 <= to <= size then
              r == to && fs' == fs.(t := fs.t.(descs := fs.t.descs[d := fs.t.descs[d].(pos := to)]))
            else r == -1 && fs' == fs
  {
  }

  /** fs_fork: the child's row is the parent's, every descriptor counts one reference more for each time it is in that
      row, and nothing else of descriptors and inodes has changed. */
  lemma ForkEffect(fs: Fs, n1st: nat, child: nat, parent: nat)
    requires ForkLegal(fs, n1st, child, parent)
    ensures var fs' := ForkedFs(fs, n1st, child, parent); var row := fs.t.filp[parent];
            && fs'.t.filp == fs.t.filp[child := row] && |fs'.t.descs| == |fs.t.descs| && |fs'.t.cache| == |fs.t.cache|
            && (forall d | 0 <= d < |fs.t.descs| ::
                 fs'.t.descs[d] == fs.t.descs[d].(cnt := fs.t.descs[d].cnt + multiset(row)[d]))
            && (forall s | 0 <= s < |fs.t.cache| ::
                 fs'.t.cache[s].num == fs.t.cache[s].num && fs'.t.cache[s].f == fs.t.cache[s].f)
            && fs' == fs.(t := fs'.t)
  {
    ParentForkOk(fs.t, child, parent);
    var row := fs.t.filp[parent];
    ForkedSameBut(fs.t, child, row, |row|);
    ForkedRows(fs.t, child, row);
    forall d | 0 <= d < |fs.t.descs|
      ensures Forked(fs.t, child, row, |row|).descs[d].cnt == fs.t.descs[d].cnt + multiset(row)[d]
    {
      ForkedCount(fs.t, child, row, d);
    }
  }

  lemma ForkedRows(t: Tables, p: nat, row: seq<int>)
    requires ForkOk(t, p, row)
    ensures Forked(t, p, row, |row|).filp == t.filp[p := row]
  {
    assert row[..|row|] + t.filp[p][|row|..] == row;
  }

  lemma ForkedCount(t: Tables, p: nat, row: seq<int>, d: nat)
    requires RefsOk(t) && ForkOk(t, p, row) && d < |t.descs|
    ensures var t' := Forked(t, p, row, |row|); t'.descs[d].cnt == t.descs[d].cnt + multiset(row)[d]
  {
    ForkKeeps(t, p, row, |row|);
    ForkedRows(t, p, row);
    RefCountUpdate(t.filp, p, row, d);
    assert d !in t.filp[p];
    assert DescOk(t.filp, t.descs, d) && DescOk(Forked(t, p, row, |row|).filp, Forked(t, p, row, |row|).descs, d);
  }

  // ---------------------------------------------------------------- do_unlink

  /** A removal clears the bit of the inode and those of its extent, and its record; no other record but the root's, no
      entry of a process and no descriptor changes. */
  lemma UnlinkEffect(fs: Fs, n1st: nat, path: seq<char>)
    requires UnlinkLegal(fs, n1st, path) && Unlinked(fs, n1st, path).1 == 0
    ensures var fs' := Unlinked(fs, n1st, path).0; var k := Lookup(fs, path);
            && 1 < k < |fs.inodeMap| && fs.inodeMap[k] && fs'.inodeMap == fs.inodeMap[k := false]
            && k <= |fs.disk| == |fs'.disk| && fs'.disk[k - 1] == Fields(0, 0, 0, 0)
            && |fs'.sectorMap| == |fs.sectorMap|
            && (forall j | 0 <= j < |fs.sectorMap| ::
                 var b := fs.disk[k - 1].start - n1st + 1;
                 fs'.sectorMap[j] == (fs.sectorMap[j] && !(b <= j < b + 2048)))
            && (forall x | 0 < x < |fs.disk| && x != k - 1 :: fs'.disk[x] == fs.disk[x])
            && fs'.t.filp == fs.t.filp && fs'.t.descs == fs.t.descs
            && (forall s | 0 <= s < |fs.t.cache| :: s < |fs'.t.cache| && fs'.t.cache[s].cnt == fs.t.cache[s].cnt)
  {
    RemovedIs(fs, n1st, path);
    LookupUsed(fs, n1st, path);
    FreedReady(fs, n1st, path);
    FileLife.RemovedMaps(fs, n1st, path);
    RemovedDisk(fs, n1st, path);
  }

  lemma RemovedDisk(fs: Fs, n1st: nat, path: seq<char>)
    requires UnlinkLegal(fs, n1st, path) && Removes(fs, n1st, path)
    ensures var fs' := Unlinked(fs, n1st, path).0; var k := Lookup(fs, path);
            && 1 < k <= |fs.disk| == |fs'.disk| && fs'.disk[k - 1] == Fields(0, 0, 0, 0)
            && fs.disk[k - 1].nrSects == 2048
            && forall x | 0 < x < |fs.disk| && x != k - 1 :: fs'.disk[x] == fs.disk[x]
  {
    LookupUsed(fs, n1st, path);
    FreedReady(fs, n1st, path);
    FreshlyGotten(fs, n1st, Lookup(fs, path));
    assert InodeOk(Lookup(fs, path), fs.disk[Lookup(fs, path) - 1], n1st);
  }
}
