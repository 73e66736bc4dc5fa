/** The requests of the file server as steps on its state; every legal one keeps the invariant. */
module Requests {
  import opened Base
  import opened Bits
  import opened Extents
  import opened InodeCache
  import opened Directory
  import opened Refs
  import opened Files
  import opened FileOps
  import FileIo

  /** The index of the first NIL of a filp[] row, or its length. */
  function FreeFd(row: seq<int>, i: nat): (fd: nat)
    requires i <= |row|
    ensures i <= fd <= |row| && (fd < |row| ==> row[fd] == NIL)
    decreases |row| - i
  {
    if i == |row| || row[i] == NIL then i else FreeFd(row, i + 1)
  }

  /** The index of the first descriptor not in use. */
  function FreeDesc(descs: seq<Desc>, i: nat): (d: nat)
    requires i <= |descs|
    ensures i <= d <= |descs| && (d < |descs| ==> descs[d].inode == NIL)
    decreases |descs| - i
  {
    if i == |descs| || descs[i].inode == NIL then i else FreeDesc(descs, i + 1)
  }

  predicate Creates(flags: nat) { flags % 2 == 1 }
  predicate ReadWrite(flags: nat) { flags / 2 % 2 == 1 }

  // ---------------------------------------------------------------- do_open

  /** O_CREAT on a path that is free and has a name. */
  predicate MakesFile(fs: Fs, path: seq<char>, flags: nat)
    requires ROOT_SLOT < |fs.t.cache| && Limit(Entries(fs.t.cache)) <= |fs.slots|
  {
    Creates(flags) && Lookup(fs, path) == INVALID_INODE && '/' !in Stripped(path)
  }

  /** The tables have room where the request needs it; otherwise do_open panics. */
  ghost predicate OpenLegal(fs: Fs, n1st: nat, p: nat, path: seq<char>, flags: nat) {
    && FsOk(fs, n1st) && GoodPath(path) && p < |fs.t.filp|
    && FreeFd(fs.t.filp[p], 0) < |fs.t.filp[p]| && FreeDesc(fs.t.descs, 0) < |fs.t.descs|
    && (Creates(flags) || ReadWrite(flags))
    && (MakesFile(fs, path, flags) ==> CanAllocate(fs))
    && (!Creates(flags) && Lookup(fs, path) != INVALID_INODE ==> SlotFor(fs.t.cache, Lookup(fs, path)) >= 0)
  }

  /** The descriptor on slot s. */
  function Attached(fs: Fs, p: nat, s: nat, flags: nat): Fs
    requires p < |fs.t.filp| && FreeFd(fs.t.filp[p], 0) < |fs.t.filp[p]| && FreeDesc(fs.t.descs, 0) < |fs.t.descs|
    requires s < |fs.t.cache|
  {
    fs.(t := Attach(fs.t, p, FreeFd(fs.t.filp[p], 0), FreeDesc(fs.t.descs, 0), s, flags))
  }

  /** create_file */
  ghost function NewFile(fs: Fs, n1st: nat, path: seq<char>): Fs
    requires FsOk(fs, n1st) && n1st > 0 && GoodPath(path) && CanAllocate(fs)
  {
    AllocateParts(fs, n1st);
    Created(fs, n1st, Stripped(path))
  }

  ghost function Opened(fs: Fs, n1st: nat, p: nat, path: seq<char>, flags: nat): (Fs, int)
    requires OpenLegal(fs, n1st, p, path, flags) && n1st > 0
  {
    var ino := Lookup(fs, path);
    var fd: int := FreeFd(fs.t.filp[p], 0);
    if MakesFile(fs, path, flags) then
      (Attached(NewFile(fs, n1st, path), p, SlotFor(fs.t.cache, FirstClear(fs.inodeMap, 0)), flags), fd)
    else if Creates(flags) || ino == INVALID_INODE then (fs, -1)
    else LookupUsed(fs, n1st, path); (Attached(Got(fs, ino), p, SlotFor(fs.t.cache, ino), flags), fd)
  }

  lemma CreateKeeps(fs: Fs, n1st: nat, path: seq<char>)
    requires FsOk(fs, n1st) && n1st > 0 && GoodPath(path) && CanAllocate(fs)
    ensures var c := NewFile(fs, n1st, path); var k := FirstClear(fs.inodeMap, 0); var s := SlotFor(fs.t.cache, k);
            && Sound(c, Taken(c.inodeMap), n1st) && OneMore(fs.t.cache, c.t.cache, s)
            && k !in Taken(fs.inodeMap) && Taken(c.inodeMap) == Taken(fs.inodeMap) + {k} && c.t.cache[s].num == k
            && c.t.filp == fs.t.filp && c.t.descs == fs.t.descs
  {
    AllocateParts(fs, n1st);
    var k, used := FirstClear(fs.inodeMap, 0), Taken(fs.inodeMap);
    EnterParts(Allocated(fs, n1st), used, n1st, k, Stripped(path));
    var c := NewFile(fs, n1st, path);
    TakenIs(c.inodeMap, c.t.cache, used + {k});
  }

  /** do_open keeps the invariant, and leaks no reference. */
  lemma OpenKeeps(fs: Fs, n1st: nat, p: nat, path: seq<char>, flags: nat)
    requires OpenLegal(fs, n1st, p, path, flags) && n1st > 0
    ensures var (fs', fd) := Opened(fs, n1st, p, path, flags);
            FsOk(fs', n1st) && forall s | 0 <= s < NR_INODE :: Leak(fs'.t, s) == Leak(fs.t, s)
  {
    var fd, d := FreeFd(fs.t.filp[p], 0), FreeDesc(fs.t.descs, 0);
    if MakesFile(fs, path, flags) {
      CreateKeeps(fs, n1st, path);
      var c := NewFile(fs, n1st, path);
      AttachKeeps(fs.t, c.t.cache, p, fd, d, SlotFor(fs.t.cache, FirstClear(fs.inodeMap, 0)), flags);
      assert c.t == fs.t.(cache := c.t.cache);
    } else if !Creates(flags) && Lookup(fs, path) != INVALID_INODE {
      var ino := Lookup(fs, path);
      LookupUsed(fs, n1st, path);
      GotKeeps(fs, n1st, ino);
      GottenCounts(fs.t.cache, fs.disk, ino);
      AttachKeeps(fs.t, Got(fs, ino).t.cache, p, fd, d, SlotFor(fs.t.cache, ino), flags);
    }
  }

  /** do_open fails exactly when the path is taken (O_CREAT) or leads nowhere, and then changes nothing.  Otherwise the
      caller's first free entry holds a new descriptor, at position 0, on the inode the path led to or on the new
      one. */
  lemma OpenHolds(fs: Fs, n1st: nat, p: nat, path: seq<char>, flags: nat)
    requires OpenLegal(fs, n1st, p, path, flags) && n1st > 0
    ensures var (fs', fd) := Opened(fs, n1st, p, path, flags); var fd0 := FreeFd(fs.t.filp[p], 0);
            && FsOk(fs', n1st)
            && (fd == -1 <==> if Creates(flags) then Lookup(fs, path) != INVALID_INODE || '/' in Stripped(path)
                              else Lookup(fs, path) == INVALID_INODE)
            && (fd == -1 ==> fs' == fs)
            && (fd != -1 ==> fd == fd0 && OpenedAt(fs', p, fd0, flags,
                               if Creates(flags) then FirstClear(fs.inodeMap, 0) else Lookup(fs, path)))
  {
    OpenKeeps(fs, n1st, p, path, flags);
    if MakesFile(fs, path, flags) {
      CreateKeeps(fs, n1st, path);
    } else if !Creates(flags) && Lookup(fs, path) != INVALID_INODE {
      LookupUsed(fs, n1st, path);
      GottenOk(fs.t.cache, fs.disk, Lookup(fs, path));
    }
  }

  /** The descriptor of a file just made. */
  lemma MadeAt(fs: Fs, n1st: nat, p: nat, path: seq<char>, flags: nat)
    requires OpenLegal(fs, n1st, p, path, flags) && n1st > 0 && MakesFile(fs, path, flags)
    ensures var (fs', fd) := Opened(fs, n1st, p, path, flags);
            FsOk(fs', n1st) && fd >= 0 && OpenedAt(fs', p, fd, flags, FirstClear(fs.inodeMap, 0))
  {
    OpenHolds(fs, n1st, p, path, flags);
  }

  predicate OpenedAt(fs: Fs, p: nat, fd: nat, flags: nat, k: nat) {
    && p < |fs.t.filp| && fd < |fs.t.filp[p]| && 0 <= fs.t.filp[p][fd] < |fs.t.descs|
    && var d := fs.t.descs[fs.t.filp[p][fd]];
       && d.mode == flags && d.pos == 0 && d.cnt == 1 && 0 <= d.inode < |fs.t.cache| && fs.t.cache[d.inode].num == k
  }

  // ---------------------------------------------------------------- do_close, fs_fork, fs_exit, do_lseek

  /** Counts may change as long as nothing comes alive and the root stays. */
  lemma SameLive(fs: Fs, n1st: nat, t: Tables)
    requires Sound(fs, Taken(fs.inodeMap), n1st) && RefsOk(t) && |t.cache| == NR_INODE
    requires forall s | 0 <= s < NR_INODE ::
               t.cache[s].num == fs.t.cache[s].num && t.cache[s].f == fs.t.cache[s].f
                   && (t.cache[s].cnt > 0 ==> fs.t.cache[s].cnt > 0)
    ensures FsOk(fs.(t := t), n1st)
  {
    assert Leak(t, ROOT_SLOT) >= 0;
  }

  ghost predicate CloseLegal(fs: Fs, n1st: nat, p: nat, fd: nat) {
    FsOk(fs, n1st) && p < |fs.t.filp| && fd < |fs.t.filp[p]| && fs.t.filp[p][fd] != NIL
  }

  ghost function Closed(fs: Fs, n1st: nat, p: nat, fd: nat): Fs
    requires CloseLegal(fs, n1st, p, fd)
  {
    HeldCanDrop(fs.t, p, fd);
    fs.(t := Drop(fs.t, p, fd))
  }

  lemma CloseKeeps(fs: Fs, n1st: nat, p: nat, fd: nat)
    requires CloseLegal(fs, n1st, p, fd)
    ensures var fs' := Closed(fs, n1st, p, fd);
            FsOk(fs', n1st) && forall s | 0 <= s < NR_INODE :: Leak(fs'.t, s) == Leak(fs.t, s)
  {
    HeldCanDrop(fs.t, p, fd);
    DropKeeps(fs.t, p, fd);
    SameLive(fs, n1st, Drop(fs.t, p, fd));
  }

  ghost predicate ForkLegal(fs: Fs, n1st: nat, child: nat, parent: nat) {
    && FsOk(fs, n1st) && child < |fs.t.filp| && parent < |fs.t.filp| && |fs.t.filp[child]| == |fs.t.filp[parent]|
    && forall fd | 0 <= fd < |fs.t.filp[child]| :: fs.t.filp[child][fd] == NIL
  }

  /** The copy of the parent's row and fs_fork. */
  ghost function ForkedFs(fs: Fs, n1st: nat, child: nat, parent: nat): Fs
    requires ForkLegal(fs, n1st, child, parent)
  {
    ParentForkOk(fs.t, child, parent);
    fs.(t := Forked(fs.t, child, fs.t.filp[parent], |fs.t.filp[parent]|))
  }

  lemma ForkKeepsFs(fs: Fs, n1st: nat, child: nat, parent: nat)
    requires ForkLegal(fs, n1st, child, parent)
    ensures var fs' := ForkedFs(fs, n1st, child, parent);
            FsOk(fs', n1st) && forall s | 0 <= s < NR_INODE :: Leak(fs'.t, s) == Leak(fs.t, s)
  {
    ParentForkOk(fs.t, child, parent);
    var row := fs.t.filp[parent];
    ForkKeeps(fs.t, child, row, |row|);
    ForkedSameBut(fs.t, child, row, |row|);
    ForkedLive(fs.t, child, row, |row|);
    SameLive(fs, n1st, Forked(fs.t, child, row, |row|));
  }

  lemma ExitKeepsFs(fs: Fs, n1st: nat, p: nat)
    requires FsOk(fs, n1st) && p < |fs.t.filp|
    ensures var fs' := fs.(t := Exited(fs.t, p, 0));
            FsOk(fs', n1st) && forall s | 0 <= s < NR_INODE :: Leak(fs'.t, s) == Leak(fs.t, s)
  {
    ExitKeeps(fs.t, p, 0);
    ExitedSameBut(fs.t, p, 0);
    ExitedLive(fs.t, p, 0);
    SameLive(fs, n1st, Exited(fs.t, p, 0));
  }

  lemma MoveKeepsFs(fs: Fs, n1st: nat, d: nat, pos: nat)
    requires FsOk(fs, n1st) && d < |fs.t.descs|
    ensures var fs' := fs.(t := Repositioned(fs.t, d, pos));
            FsOk(fs', n1st) && forall s | 0 <= s < NR_INODE :: Leak(fs'.t, s) == Leak(fs.t, s)
  {
    RepositionKeeps(fs.t, d, pos);
    SameLive(fs, n1st, Repositioned(fs.t, d, pos));
  }

  /** do_lseek: the new position or -1. */
  ghost function Sought(fs: Fs, n1st: nat, p: nat, fd: nat, whence: int, off: int): (Fs, int)
    requires CloseLegal(fs, n1st, p, fd)
  {
    HeldCanDrop(fs.t, p, fd);
    var d := fs.t.filp[p][fd];
    var pos := FileIo.SeekTo(fs.t.descs[d].pos, fs.t.cache[fs.t.descs[d].inode].f.size, whence, off);
    (if pos < 0 then fs else fs.(t := Repositioned(fs.t, d, pos)), pos)
  }

  lemma SeekKeeps(fs: Fs, n1st: nat, p: nat, fd: nat, whence: int, off: int)
    requires CloseLegal(fs, n1st, p, fd)
    ensures var fs' := Sought(fs, n1st, p, fd, whence, off).0;
            FsOk(fs', n1st) && forall s | 0 <= s < NR_INODE :: Leak(fs'.t, s) == Leak(fs.t, s)
  {
    HeldCanDrop(fs.t, p, fd);
    var pos := Sought(fs, n1st, p, fd, whence, off).1;
    if pos >= 0 { MoveKeepsFs(fs, n1st, fs.t.filp[p][fd], pos); }
  }

  // ---------------------------------------------------------------- do_rdwt

  /** What do_rdwt clips the end of a transfer to. */
  function Bound(f: Fields, write: bool): nat {
    if write then f.nrSects * SECTOR_SIZE else f.size
  }

  function Grown(fs: Fs, s: nat, size: nat): Fs
    requires s < |fs.t.cache| && 0 < fs.t.cache[s].num <= |fs.disk|
  {
    var f := fs.t.cache[s].f.(size := size);
    fs.(t := fs.t.(cache := fs.t.cache[s := fs.t.cache[s].(f := f)]), disk := fs.disk[fs.t.cache[s].num - 1 := f])
  }

  /** n bytes transferred: the position moves over them, and the size after it. */
  ghost function Shifted(fs: Fs, n1st: nat, p: nat, fd: nat, n: nat): Fs
    requires CloseLegal(fs, n1st, p, fd)
  {
    HeldCanDrop(fs.t, p, fd);
    var d := fs.t.filp[p][fd];
    var s, pos := fs.t.descs[d].inode, fs.t.descs[d].pos + n;
    var moved := fs.(t := Repositioned(fs.t, d, pos));
    if pos > fs.t.cache[s].f.size then Grown(moved, s, pos) else moved
  }

  /** A descriptor that do_rdwt moves bytes for: opened with O_RDWR, and not on a terminal, whose driver gets the
      request. */
  predicate Movable(fs: Fs, d: Desc)
    requires 0 <= d.inode < |fs.t.cache|
  {
    ReadWrite(d.mode) && fs.t.cache[d.inode].f.mode != I_CHAR_SPECIAL
  }

  /** The bytes that a transfer moves. */
  function MovedBy(fs: Fs, d: Desc, write: bool, len: nat): nat
    requires 0 <= d.inode < |fs.t.cache|
  {
    FileIo.Moved(d.pos, len, Bound(fs.t.cache[d.inode].f, write))
  }

  /** A size of the root directory: whole entries, no more than there are inodes. */
  predicate WholeEntries(size: nat) {
    size % DIR_ENTRY_SIZE == 0 && size / DIR_ENTRY_SIZE <= NR_INODES
  }

  /** Any transfer on a regular file or a terminal; on the root directory a READ that, if it grows the directory, grows
      it by whole entries. */
  ghost predicate TransferLegal(fs: Fs, n1st: nat, p: nat, fd: nat, write: bool, len: nat) {
    && CloseLegal(fs, n1st, p, fd)
    && (HeldCanDrop(fs.t, p, fd); var d := fs.t.descs[fs.t.filp[p][fd]]; var f := fs.t.cache[d.inode].f;
        f.mode == I_DIRECTORY && ReadWrite(d.mode) ==>
          !write && WholeEntries(Max(f.size, d.pos + MovedBy(fs, d, write, len))))
  }

  ghost function Transferred(fs: Fs, n1st: nat, p: nat, fd: nat, write: bool, len: nat): Fs
    requires CloseLegal(fs, n1st, p, fd)
  {
    HeldCanDrop(fs.t, p, fd);
    var d := fs.t.descs[fs.t.filp[p][fd]];
    if Movable(fs, d) then Shifted(fs, n1st, p, fd, MovedBy(fs, d, write, len)) else fs
  }

  /** do_rdwt grows the file exactly when the bytes it moved end behind it: a READ over the end of a file grows it. */
  lemma ReadGrows(fs: Fs, n1st: nat, p: nat, fd: nat, len: nat)
    requires CloseLegal(fs, n1st, p, fd)
    requires CanDrop(fs.t, p, fd)
    requires var d := fs.t.descs[fs.t.filp[p][fd]]; var f := fs.t.cache[d.inode].f;
             d.pos <= f.size && f.mode != I_CHAR_SPECIAL
    ensures var d := fs.t.descs[fs.t.filp[p][fd]]; var size := fs.t.cache[d.inode].f.size;
            var fs' := Shifted(fs, n1st, p, fd, FileIo.Moved(d.pos, len, size));
            && |fs'.t.cache| == |fs.t.cache|
            && (fs'.t.cache[d.inode].f.size > size <==> d.pos + len > size)
            && (d.pos + len <= size ==> fs'.t.cache == fs.t.cache)
  {
    var d := fs.t.descs[fs.t.filp[p][fd]];
    FileIo.MovedExact(d.pos, len, fs.t.cache[d.inode].f.size);
  }

  /** After n bytes: the position is n further, the size is the larger of old size and new position, in the cache and on
      the disk, and nothing else has changed. */
  lemma ShiftedIs(fs: Fs, n1st: nat, p: nat, fd: nat, n: nat)
    requires CloseLegal(fs, n1st, p, fd) && CanDrop(fs.t, p, fd)
    ensures var d := fs.t.filp[p][fd]; var s := fs.t.descs[d].inode; var fs' := Shifted(fs, n1st, p, fd, n);
            var f' := fs.t.cache[s].f.(size := Max(fs.t.cache[s].f.size, fs.t.descs[d].pos + n));
            && 0 < fs.t.cache[s].num <= |fs.disk|
            && fs'.t.descs == fs.t.descs[d := fs.t.descs[d].(pos := fs.t.descs[d].pos + n)]
            && fs'.t.cache == fs.t.cache[s := fs.t.cache[s].(f := f')]
               && fs'.disk == fs.disk[fs.t.cache[s].num - 1 := f']
            && fs'.t.filp == fs.t.filp && fs'.slots == fs.slots && fs'.inodeMap == fs.inodeMap
               && fs'.sectorMap == fs.sectorMap
  {
  }

  lemma GrowSpace(sectorMap: seq<bool>, disk: seq<Fields>, used: set<nat>, n1st: nat, k: nat, size: nat)
    requires SpaceOk(sectorMap, disk, used, n1st) && k in used && 0 < k <= |disk|
    requires disk[k - 1].mode == I_REGULAR
    ensures SpaceOk(sectorMap, disk[k - 1 := disk[k - 1].(size := size)], used, n1st) && k != ROOT_INODE
  {
    assert InodeOk(k, disk[k - 1], n1st);
    SameSpace(sectorMap, disk, disk[k - 1 := disk[k - 1].(size := size)], used, n1st);
  }

  lemma GrowSound(fs: Fs, used: set<nat>, n1st: nat, s: nat, size: nat)
    requires Sound(fs, used, n1st) && s < NR_INODE && fs.t.cache[s].cnt > 0
    requires fs.t.cache[s].f.mode == I_REGULAR
    ensures 0 < fs.t.cache[s].num <= |fs.disk| && Sound(Grown(fs, s, size), used, n1st)
  {
    var k := fs.t.cache[s].num;
    assert k in used && fs.disk[k - 1] == fs.t.cache[s].f;
    SyncAgrees(fs.t.cache, fs.disk, s, fs.t.cache[s].f.(size := size));
    GrowSpace(fs.sectorMap, fs.disk, used, n1st, k, size);
    assert s != ROOT_SLOT;
  }

  lemma GrowKeeps(fs: Fs, n1st: nat, s: nat, size: nat)
    requires FsOk(fs, n1st) && s < NR_INODE && fs.t.cache[s].cnt > 0
    requires fs.t.cache[s].f.mode == I_REGULAR
    ensures 0 < fs.t.cache[s].num <= |fs.disk|
    ensures FsOk(Grown(fs, s, size), n1st)
            && forall x | 0 <= x < NR_INODE :: Leak(Grown(fs, s, size).t, x) == Leak(fs.t, x)
  {
    GrowSound(fs, Taken(fs.inodeMap), n1st, s, size);
    CountsOnly(fs.t, Grown(fs, s, size).t.cache);
  }

  lemma ShiftKeeps(fs: Fs, n1st: nat, d: nat, n: nat)
    requires FsOk(fs, n1st) && d < |fs.t.descs| && fs.t.descs[d].inode != NIL
    requires 0 <= fs.t.descs[d].inode < NR_INODE && fs.t.cache[fs.t.descs[d].inode].cnt > 0
    requires fs.t.cache[fs.t.descs[d].inode].f.mode == I_REGULAR
    ensures var s, pos := fs.t.descs[d].inode, fs.t.descs[d].pos + n; var moved := fs.(t := Repositioned(fs.t, d, pos));
            && 0 < fs.t.cache[s].num <= |fs.disk|
            && FsOk(moved, n1st) && FsOk(Grown(moved, s, pos), n1st)
            && forall x | 0 <= x < NR_INODE :: Leak(moved.t, x) == Leak(Grown(moved, s, pos).t, x) == Leak(fs.t, x)
  {
    var s, pos := fs.t.descs[d].inode, fs.t.descs[d].pos + n;
    MoveKeepsFs(fs, n1st, d, pos);
    GrowKeeps(fs.(t := Repositioned(fs.t, d, pos)), n1st, s, pos);
  }

  lemma ShiftedKeeps(fs: Fs, n1st: nat, p: nat, fd: nat, n: nat)
    requires CloseLegal(fs, n1st, p, fd) && CanDrop(fs.t, p, fd)
    requires fs.t.cache[fs.t.descs[fs.t.filp[p][fd]].inode].f.mode == I_REGULAR
    ensures FsOk(Shifted(fs, n1st, p, fd, n), n1st)
    ensures forall s | 0 <= s < NR_INODE :: Leak(Shifted(fs, n1st, p, fd, n).t, s) == Leak(fs.t, s)
  {
    ShiftKeeps(fs, n1st, fs.t.filp[p][fd], n);
  }

  /** Bytes read from the root directory keep the invariant exactly when they leave it whole entries. */
  lemma DirectoryExact(fs: Fs, n1st: nat, p: nat, fd: nat, n: nat)
    requires CloseLegal(fs, n1st, p, fd) && CanDrop(fs.t, p, fd)
    requires fs.t.cache[fs.t.descs[fs.t.filp[p][fd]].inode].f.mode == I_DIRECTORY
    ensures var d := fs.t.descs[fs.t.filp[p][fd]]; var fs' := Shifted(fs, n1st, p, fd, n);
            FsOk(fs', n1st) <==> WholeEntries(Max(fs.t.cache[d.inode].f.size, d.pos + n))
    ensures var fs' := Shifted(fs, n1st, p, fd, n);
            FsOk(fs', n1st) ==> forall s | 0 <= s < NR_INODE :: Leak(fs'.t, s) == Leak(fs.t, s)
  {
    var d := fs.t.filp[p][fd];
    var pos := fs.t.descs[d].pos + n;
    CachedMode(fs, n1st, fs.t.descs[d].inode);
    assert fs.t.descs[d].inode == ROOT_SLOT;
    MoveKeepsFs(fs, n1st, d, pos);
    if WholeEntries(pos) { RootGrows(fs.(t := Repositioned(fs.t, d, pos)), n1st, pos); }
  }

  lemma RootGrows(fs: Fs, n1st: nat, size: nat)
    requires FsOk(fs, n1st) && WholeEntries(size)
    ensures FsOk(Grown(fs, ROOT_SLOT, size), n1st)
    ensures forall s | 0 <= s < NR_INODE :: Leak(Grown(fs, ROOT_SLOT, size).t, s) == Leak(fs.t, s)
  {
    ResizeKeeps(fs, Taken(fs.inodeMap), n1st, size / DIR_ENTRY_SIZE);
    CountsOnly(fs.t, Grown(fs, ROOT_SLOT, size).t.cache);
  }

  lemma TransferKeeps(fs: Fs, n1st: nat, p: nat, fd: nat, write: bool, len: nat)
    requires TransferLegal(fs, n1st, p, fd, write, len)
    ensures var fs' := Transferred(fs, n1st, p, fd, write, len);
            FsOk(fs', n1st) && forall s | 0 <= s < NR_INODE :: Leak(fs'.t, s) == Leak(fs.t, s)
  {
    HeldCanDrop(fs.t, p, fd);
    var d := fs.t.descs[fs.t.filp[p][fd]];
    if Movable(fs, d) {
      CachedMode(fs, n1st, d.inode);
      if fs.t.cache[d.inode].f.mode == I_REGULAR {
        ShiftedKeeps(fs, n1st, p, fd, MovedBy(fs, d, write, len));
      } else {
        DirectoryExact(fs, n1st, p, fd, MovedBy(fs, d, write, len));
      }
    }
  }

  /** What is cached is the root directory, a terminal, or a regular file with an extent. */
  lemma CachedMode(fs: Fs, n1st: nat, s: nat)
    requires FsOk(fs, n1st) && s < NR_INODE && fs.t.cache[s].cnt > 0
    ensures var f := fs.t.cache[s].f;
            && (f.mode == I_DIRECTORY <==> fs.t.cache[s].num == ROOT_INODE)
            && (f.mode == I_DIRECTORY || f.mode == I_CHAR_SPECIAL
                || (f.mode == I_REGULAR && f.nrSects == NR_DEFAULT_FILE_SECTS && f.start >= n1st))
            && (f.mode == I_CHAR_SPECIAL ==> Major(f.start) == DEV_CHAR_TTY)
  {
    assert fs.t.cache[s].num in Taken(fs.inodeMap);
    assert InodeOk(fs.t.cache[s].num, fs.disk[fs.t.cache[s].num - 1], n1st);
  }

  /** A transfer inside its bound moves all its bytes. */
  lemma InsideMoves(pos: nat, len: nat, f: Fields, write: bool)
    ensures pos + len <= Bound(f, write) ==> FileIo.Moved(pos, len, Bound(f, write)) == len
  {
    if pos + len <= Bound(f, write) { FileIo.MovedExact(pos, len, Bound(f, write)); }
  }

  // ---------------------------------------------------------------- do_unlink

  /** The path names an inode and is not the root. */
  predicate Names(fs: Fs, path: seq<char>)
    requires ROOT_SLOT < |fs.t.cache| && Limit(Entries(fs.t.cache)) <= |fs.slots|
  {
    path != "/" && Lookup(fs, path) != INVALID_INODE
  }

  /** After get_inode: a regular file with no reference but this one. */
  predicate Removable(node: Inode) {
    node.f.mode == I_REGULAR && node.cnt <= 1
  }

  /** The cache has room, and the inode to remove has its entry inside the directory: otherwise do_unlink panics. */
  ghost predicate UnlinkLegal(fs: Fs, n1st: nat, path: seq<char>) {
    && FsOk(fs, n1st) && GoodPath(path)
    && (Names(fs, path) ==> SlotFor(fs.t.cache, Lookup(fs, path)) >= 0)
    && (Removes(fs, n1st, path) ==> HasEntry(fs, Lookup(fs, path)))
  }

  /** The unlink goes through. */
  predicate Removes(fs: Fs, n1st: nat, path: seq<char>)
    requires ROOT_SLOT < |fs.t.cache| && Limit(Entries(fs.t.cache)) <= |fs.slots|
  {
    var k := Lookup(fs, path);
    && Names(fs, path) && SlotFor(fs.t.cache, k) >= 0 && k <= |fs.disk|
    && Removable(Gotten(fs.t.cache, fs.disk, k)[SlotFor(fs.t.cache, k)])
  }

  ghost function Unlinked(fs: Fs, n1st: nat, path: seq<char>): (Fs, int)
    requires UnlinkLegal(fs, n1st, path)
  {
    var k := Lookup(fs, path);
    if !Names(fs, path) then (fs, -1)
    else
      LookupUsed(fs, n1st, path);
      var got, s := Got(fs, k), SlotFor(fs.t.cache, k);
      if !Removes(fs, n1st, path) then (got, -1)
      else
        FreedReady(fs, n1st, path);
        (Unentered(Freed(got, n1st, k, s), k), 0)
  }

  /** The inode was not in the cache: the count after get_inode is 1. */
  lemma FreshlyGotten(fs: Fs, n1st: nat, k: nat)
    requires FsOk(fs, n1st) && k in Taken(fs.inodeMap) && SlotFor(fs.t.cache, k) >= 0
    ensures var s := SlotFor(fs.t.cache, k); var node := Gotten(fs.t.cache, fs.disk, k)[s];
            && node.num == k && node.cnt == fs.t.cache[s].cnt + 1 && node.f == fs.disk[k - 1]
            && (node.cnt <= 1 <==> LiveSlot(fs.t.cache, k, 0) == -1)
  {
    GottenOk(fs.t.cache, fs.disk, k);
  }

  lemma FreedReady(fs: Fs, n1st: nat, path: seq<char>)
    requires UnlinkLegal(fs, n1st, path) && Removes(fs, n1st, path)
    ensures var k := Lookup(fs, path); var s := SlotFor(fs.t.cache, k); var used := Taken(fs.inodeMap);
            var freed := Freed(Got(fs, k), n1st, k, s);
            && k in used && Got(fs, k).t.cache[s].cnt == 1 && fs.t.cache[s].cnt == 0 && k != ROOT_INODE
               && s != ROOT_SLOT
            && Got(fs, k).t.cache[s].num == k && Stored(freed, used - {k}, n1st)
            && DirShape(freed.slots, freed.t.cache, used) && HasEntry(freed, k)
            && freed.t.cache[ROOT_SLOT].f == fs.t.cache[ROOT_SLOT].f
  {
    LookupUsed(fs, n1st, path);
    var k := Lookup(fs, path);
    var s := SlotFor(fs.t.cache, k);
    GotKeeps(fs, n1st, k);
    FreshlyGotten(fs, n1st, k);
    assert k != ROOT_INODE by { assert InodeOk(k, fs.disk[k - 1], n1st); }
    FreeParts(Got(fs, k), Taken(fs.inodeMap), n1st, k, s);
    GottenOk(fs.t.cache, fs.disk, k);
  }

  /** The reference that get_inode took is given back. */
  lemma FreedCounts(fs: Fs, n1st: nat, k: nat)
    requires FsOk(fs, n1st) && k in Taken(fs.inodeMap) && SlotFor(fs.t.cache, k) >= 0
    ensures var freed := Freed(Got(fs, k), n1st, k, SlotFor(fs.t.cache, k));
            freed.slots == fs.slots && freed.t == fs.t.(cache := freed.t.cache)
            && forall x | 0 <= x < NR_INODE :: freed.t.cache[x].cnt == fs.t.cache[x].cnt
  {
    GottenCounts(fs.t.cache, fs.disk, k);
  }

  /** A removal leaves every count as it was and takes one number out of use. */
  lemma RemovedIs(fs: Fs, n1st: nat, path: seq<char>)
    requires UnlinkLegal(fs, n1st, path) && Removes(fs, n1st, path)
    ensures var fs' := Unlinked(fs, n1st, path).0;
            && Sound(fs', Taken(fs'.inodeMap), n1st) && Taken(fs'.inodeMap) == Taken(fs.inodeMap) - {Lookup(fs, path)}
            && fs'.t == fs.t.(cache := fs'.t.cache)
               && forall x | 0 <= x < NR_INODE :: fs'.t.cache[x].cnt == fs.t.cache[x].cnt
  {
    var k, used := Lookup(fs, path), Taken(fs.inodeMap);
    LookupUsed(fs, n1st, path);
    FreedReady(fs, n1st, path);
    FreedCounts(fs, n1st, k);
    RemoveParts(Freed(Got(fs, k), n1st, k, SlotFor(fs.t.cache, k)), used, n1st, k);
    var fs' := Unlinked(fs, n1st, path).0;
    TakenIs(fs'.inodeMap, fs'.t.cache, used - {k});
  }

  lemma UnlinkKeeps(fs: Fs, n1st: nat, path: seq<char>)
    requires UnlinkLegal(fs, n1st, path)
    ensures FsOk(Unlinked(fs, n1st, path).0, n1st)
  {
    if Names(fs, path) {
      LookupUsed(fs, n1st, path);
      GotKeeps(fs, n1st, Lookup(fs, path));
      if Removes(fs, n1st, path) {
        RemovedIs(fs, n1st, path);
        CountsOnly(fs.t, Unlinked(fs, n1st, path).0.t.cache);
      }
    }
  }

  /** The slot whose reference a refused unlink leaves behind, or NIL. */
  function LeaksAt(fs: Fs, n1st: nat, path: seq<char>): int
    requires ROOT_SLOT < |fs.t.cache| && Limit(Entries(fs.t.cache)) <= |fs.slots|
  {
    if Names(fs, path) && !Removes(fs, n1st, path) then SlotFor(fs.t.cache, Lookup(fs, path)) else NIL
  }

  lemma UnlinkLeaks(fs: Fs, n1st: nat, path: seq<char>)
    requires UnlinkLegal(fs, n1st, path)
    ensures var (fs', r) := Unlinked(fs, n1st, path);
            |fs'.t.cache| == NR_INODE
            && forall s | 0 <= s < NR_INODE ::
                 Leak(fs'.t, s) == Leak(fs.t, s) + if s == LeaksAt(fs, n1st, path) then 1 else 0
  {
    var k := Lookup(fs, path);
    if Names(fs, path) {
      LookupUsed(fs, n1st, path);
      GotKeeps(fs, n1st, k);
      if Removes(fs, n1st, path) { RemovedCounts(fs, n1st, path); }
    }
  }

  lemma RemovedCounts(fs: Fs, n1st: nat, path: seq<char>)
    requires UnlinkLegal(fs, n1st, path) && Removes(fs, n1st, path)
    ensures var fs' := Unlinked(fs, n1st, path).0;
            && Taken(fs'.inodeMap) == Taken(fs.inodeMap) - {Lookup(fs, path)} && |fs'.t.cache| == NR_INODE
            && forall s | 0 <= s < NR_INODE :: Leak(fs'.t, s) == Leak(fs.t, s)
  {
    RemovedIs(fs, n1st, path);
    CountsOnly(fs.t, Unlinked(fs, n1st, path).0.t.cache);
  }

  /** do_unlink removes a file exactly when it is a regular one, no process holds it, and no earlier unlink of it was
      refused; the file server's own root is no regular file. */
  lemma UnlinkExact(fs: Fs, n1st: nat, path: seq<char>)
    requires UnlinkLegal(fs, n1st, path)
    ensures var k := Lookup(fs, path); var r := Unlinked(fs, n1st, path).1;
            r == 0 <==>
            && Names(fs, path) && k <= |fs.disk| && fs.disk[k - 1].mode == I_REGULAR
            && forall s | 0 <= s < NR_INODE && fs.t.cache[s].num == k ::
                Leak(fs.t, s) == 0 && forall p, fd :: !HeldBy(fs.t, s, p, fd)
  {
    var k := Lookup(fs, path);
    if Names(fs, path) {
      LookupUsed(fs, n1st, path);
      FreshlyGotten(fs, n1st, k);
      forall s | 0 <= s < NR_INODE && fs.t.cache[s].num == k
        ensures fs.t.cache[s].cnt > 0 <==> s == ROOT_SLOT || Leak(fs.t, s) > 0 || exists p, fd :: HeldBy(fs.t, s, p, fd)
        ensures Leak(fs.t, s) >= 0
      {
        InUse(fs.t, s);
      }
      assert k == ROOT_INODE ==> fs.disk[k - 1].mode == I_DIRECTORY;
    }
  }

  /** The path "/" and a path that leads nowhere are refused before anything is done. */
  lemma UnlinkNothing(fs: Fs, n1st: nat, path: seq<char>)
    requires UnlinkLegal(fs, n1st, path) && (path == "/" || Lookup(fs, path) == 0)
    ensures Unlinked(fs, n1st, path) == (fs, -1)
  {
  }

  // ---------------------------------------------------------------- what becomes of the names

  /** Every path but those that name `but` leads where it led. */
  ghost predicate OtherNames(fs: Fs, fs': Fs, but: seq<char>)
    requires ROOT_SLOT < |fs.t.cache| && Limit(Entries(fs.t.cache)) <= |fs.slots|
    requires ROOT_SLOT < |fs'.t.cache| && Limit(Entries(fs'.t.cache)) <= |fs'.slots|
  {
    forall path | GoodPath(path) && Stripped(path) != but :: Lookup(fs', path) == Lookup(fs, path)
  }

  /** In a directory in shape a new file is found under its name, every other name still means what it meant, and the
      directory stays in shape. */
  lemma CreateNames(fs: Fs, n1st: nat, p: nat, path: seq<char>, flags: nat)
    requires OpenLegal(fs, n1st, p, path, flags) && n1st > 0 && MakesFile(fs, path, flags) && Named(fs)
    ensures FsOk(Opened(fs, n1st, p, path, flags).0, n1st)
    ensures var fs' := Opened(fs, n1st, p, path, flags).0;
            Named(fs') && Lookup(fs', path) == FirstClear(fs.inodeMap, 0) && OtherNames(fs, fs', Stripped(path))
  {
    OpenKeeps(fs, n1st, p, path, flags);
    CreateKeeps(fs, n1st, path);
    StrippedGood(path);
    AllocateParts(fs, n1st);
    var n, k := Entries(fs.t.cache), FirstClear(fs.inodeMap, 0);
    var name, fs' := Stripped(path), Opened(fs, n1st, p, path, flags).0;
    EnteredNames(Allocated(fs, n1st), k, name);
    AddExact(fs.slots, n, k, name);
    forall other | GoodPath(other) && Stripped(other) != name ensures Lookup(fs', other) == Lookup(fs, other) {
      if '/' !in Stripped(other) && Stripped(other) != [] { StrippedGood(other); }
    }
  }

  /** In a directory in any shape a created file is found under its name exactly when no longer old name is left in the
      slot that it takes. */
  lemma CreateFound(fs: Fs, n1st: nat, p: nat, path: seq<char>, flags: nat)
    requires OpenLegal(fs, n1st, p, path, flags) && n1st > 0 && MakesFile(fs, path, flags)
    ensures var fs' := Opened(fs, n1st, p, path, flags).0; var e := Place(fs.slots, Entries(fs.t.cache), 0);
            && FsOk(fs', n1st) && e < |fs.slots|
            && (Lookup(fs', path) == FirstClear(fs.inodeMap, 0) <==> TailClear(fs.slots[e].name, |Stripped(path)|))
  {
    OpenKeeps(fs, n1st, p, path, flags);
    CreateKeeps(fs, n1st, path);
    StrippedGood(path);
    AllocateParts(fs, n1st);
    EnteredNames(Allocated(fs, n1st), FirstClear(fs.inodeMap, 0), Stripped(path));
    AddFound(fs.slots, Entries(fs.t.cache), FirstClear(fs.inodeMap, 0), Stripped(path));
  }

  lemma EnteredNames(a: Fs, k: nat, name: seq<char>)
    requires CacheOk(a.t.cache, a.disk) && Entries(a.t.cache) < |a.slots| && |name| < MAX_FILENAME_LEN
    ensures var e := Entered(a, k, name); (e.slots, Entries(e.t.cache)) == Added(a.slots, Entries(a.t.cache), k, name)
  {
  }

  /** The entries in front of the removed one all lie among the slots that search_file still looks at. */
  ghost predicate AllSeen(fs: Fs, k: nat)
    requires ROOT_SLOT < |fs.t.cache| && Entries(fs.t.cache) <= |fs.slots|
  {
    var n := Entries(fs.t.cache);
    var e := SlotOf(fs.slots, n, k, 0);
    e < n - 1 || (e <= |fs.slots| && forall i | 0 <= i < e && LiveAt(fs.slots, i) :: i < Limit(LiveCount(fs.slots, e)))
  }

  /** The entry and the count after a removal. */
  lemma UnlinkedSlots(fs: Fs, n1st: nat, path: seq<char>)
    requires UnlinkLegal(fs, n1st, path) && Removes(fs, n1st, path)
    ensures FsOk(Unlinked(fs, n1st, path).0, n1st)
    ensures var fs' := Unlinked(fs, n1st, path).0;
            (fs'.slots, Entries(fs'.t.cache)) == Removed(fs.slots, Entries(fs.t.cache), Lookup(fs, path))
  {
    UnlinkKeeps(fs, n1st, path);
    FreedReady(fs, n1st, path);
    var k := Lookup(fs, path);
    UnenteredNames(Freed(Got(fs, k), n1st, k, SlotFor(fs.t.cache, k)), k);
  }

  /** In a directory in shape an unlinked name is gone in any case; every other name still means what it meant
      exactly when the entries in front of the removed one can still be seen. */
  lemma UnlinkNames(fs: Fs, n1st: nat, path: seq<char>)
    requires UnlinkLegal(fs, n1st, path) && Removes(fs, n1st, path) && Named(fs)
    ensures FsOk(Unlinked(fs, n1st, path).0, n1st)
    ensures var fs' := Unlinked(fs, n1st, path).0;
            && Lookup(fs', path) == INVALID_INODE
            && (OtherNames(fs, fs', Stripped(path)) <==> AllSeen(fs, Lookup(fs, path)))
  {
    UnlinkedSlots(fs, n1st, path);
    StrippedGood(path);
    var n, k := Entries(fs.t.cache), Lookup(fs, path);
    var name, fs' := Stripped(path), Unlinked(fs, n1st, path).0;
    RemoveExact(fs.slots, n, name);
    SeenIs(fs, k);
    if AllSeen(fs, k) {
      forall other | GoodPath(other) && Stripped(other) != name ensures Lookup(fs', other) == Lookup(fs, other) {
        if '/' !in Stripped(other) && Stripped(other) != [] { StrippedGood(other); }
      }
    } else {
      var other :| GoodName(other) && other != name
          && Search(fs'.slots, Entries(fs'.t.cache), other) != Search(fs.slots, n, other);
      assert Stripped(other) == other && GoodPath(other);
      assert Lookup(fs', other) != Lookup(fs, other);
    }
  }

  lemma SeenIs(fs: Fs, k: nat)
    requires ROOT_SLOT < |fs.t.cache| && Named(fs) && HasEntry(fs, k)
    ensures var n := Entries(fs.t.cache); var e := SlotOf(fs.slots, n, k, 0);
            AllSeen(fs, k) <==> NoneBeyond(fs.slots, e, Limit(Removed(fs.slots, n, k).1))
  {
  }

  /** A removal keeps the directory in shape exactly when it has no hole. */
  lemma UnlinkKeepsNamed(fs: Fs, n1st: nat, path: seq<char>)
    requires UnlinkLegal(fs, n1st, path) && Removes(fs, n1st, path) && Named(fs)
    ensures FsOk(Unlinked(fs, n1st, path).0, n1st)
    ensures Named(Unlinked(fs, n1st, path).0) <==> NoHole(fs, Lookup(fs, path))
  {
    UnlinkedSlots(fs, n1st, path);
    RemovedIs(fs, n1st, path);
    RemoveKeepsShape(fs.slots, Entries(fs.t.cache), Lookup(fs, path));
    RemovalIsRight(fs.slots, Entries(fs.t.cache), Lookup(fs, path));
  }

  lemma UnenteredNames(a: Fs, k: nat)
    requires CacheOk(a.t.cache, a.disk) && Entries(a.t.cache) <= |a.slots|
    requires SlotOf(a.slots, Entries(a.t.cache), k, 0) < Entries(a.t.cache)
    ensures var u := Unentered(a, k); (u.slots, Entries(u.t.cache)) == Removed(a.slots, Entries(a.t.cache), k)
  {
  }
}
