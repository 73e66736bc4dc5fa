/**
 The file server's requests as its code performs them, on the tables, the maps, the inode sectors and the root
 directory; each is proved to make the step that Requests states.
 */
module FileServer {
  import opened Base
  import opened Bits
  import opened Extents
  import opened SectorMap
  import opened InodeCache
  import opened Directory
  import opened Refs
  import opened Files
  import opened FileOps
  import opened Requests
  import FileIo

  const IMAP_BLK0 := 2
  const SMAP_BLK0 := 3

  class Server {
    /** The filp[] of each process. */
    const filp: array<seq<int>>
    /** f_desc_table[] */
    const descs: array<Desc>
    const inodes: InodeTable
    /** The sectors up to the maps and one more. */
    const maps: SectorDisk
    const dir: RootDirectory
    /** All sectors, as far as file contents go. */
    const data: FileIo.DataDisk
    const nrSmapSects: nat
    const n1stSect: nat

    constructor (nrProcs: nat, inodes: InodeTable, maps: SectorDisk, dir: RootDirectory, data: FileIo.DataDisk,
                 nrSmapSects: nat, n1stSect: nat)
      requires inodes.Valid() && maps.Valid() && dir.Valid() && data.Valid()
      requires SMAP_BLK0 + nrSmapSects < |maps.disk| && n1stSect >= 2
      ensures fresh(filp) && fresh(descs) && Valid()
      ensures this.inodes == inodes && this.maps == maps && this.dir == dir && this.data == data
      ensures this.nrSmapSects == nrSmapSects && this.n1stSect == n1stSect
      ensures State().t == Tables(seq(nrProcs, _ => seq(64, _ => NIL)), seq(64, _ => Desc(0, 0, 0, NIL)),
              inodes.table[..])
    {
      this.inodes, this.maps, this.dir, this.data := inodes, maps, dir, data;
      this.nrSmapSects, this.n1stSect := nrSmapSects, n1stSect;
      filp := new seq<int>[nrProcs](_ => seq(64, _ => NIL));
      descs := new Desc[64](_ => Desc(0, 0, 0, NIL));
    }

    ghost predicate Valid()
      reads inodes, maps, dir
    {
      && inodes.Valid() && maps.Valid() && dir.Valid() && data.Valid()
      && SMAP_BLK0 + nrSmapSects < |maps.disk| && n1stSect >= 2  && Apart(maps.fsbuf) && Apart(data.fsbuf)
    }

    /** A buffer is no table. */
    ghost predicate Apart(buf: array<byte>) {
      (filp as object) != buf && (descs as object) != buf && (inodes.table as object) != buf
    }

    ghost function State(): Fs
      reads filp, descs, inodes, inodes.table, maps, dir
      requires Valid()
    {
      Fs(Tables(filp[..], descs[..], inodes.table[..]), inodes.Disk(),
         MapOf(maps.disk, IMAP_BLK0, 1), MapOf(maps.disk, SMAP_BLK0, nrSmapSects), dir.Slots())
    }

    // -------------------------------------------------------------- do_open

    method FindFd(p: nat) returns (fd: nat)
      requires p < filp.Length
      ensures fd == FreeFd(filp[p], 0)
    {
      fd := 0;
      while fd < |filp[p]|
        invariant fd <= |filp[p]| && FreeFd(filp[p], 0) == FreeFd(filp[p], fd)
      {
        if filp[p][fd] == NIL {
          break;
        }
        fd := fd + 1;
      }
    }

    method FindDesc() returns (d: nat)
      ensures d == FreeDesc(descs[..], 0)
    {
      d := 0;
      while d < descs.Length
        invariant d <= descs.Length && FreeDesc(descs[..], 0) == FreeDesc(descs[..], d)
      {
        if descs[d].inode == NIL {
          break;
        }
        d := d + 1;
      }
    }

    method Attach(p: nat, fd: nat, d: nat, slot: nat, flags: nat)
      requires Valid() && p < filp.Length && fd < |filp[p]| && d < descs.Length && slot < inodes.table.Length
      requires CanAttach(State().t, p, fd, d, slot)
      modifies filp, descs
      ensures State() == old(State()).(t := Refs.Attach(old(State()).t, p, fd, d, slot, flags))
    {
      filp[p] := filp[p][fd := d];
      descs[d] := Desc(flags, 0, 1, slot);
    }

    /** The number of the inode a path leads to. */
    method SearchPath(path: seq<char>) returns (inodeNr: nat)
      requires Valid() && FsOk(State(), n1stSect) && GoodPath(path)
      ensures inodeNr == Lookup(State(), path)
    {
      assert inodes.table[ROOT_SLOT] == State().t.cache[ROOT_SLOT];
      inodeNr := dir.SearchFile(path, inodes.table[ROOT_SLOT].f.size, ROOT_INODE);
    }

    method GetInode(k: nat) returns (slot: nat)
      requires Valid() && FsOk(State(), n1stSect) && k in Taken(State().inodeMap) && SlotFor(State().t.cache, k) >= 0
      modifies inodes.table
      ensures slot == SlotFor(old(State()).t.cache, k) && State() == Got(old(State()), k)
    {
      assert inodes.table[..] == State().t.cache;
      var s := inodes.GetInode(k);
      slot := s;
    }

    // -------------------------------------------------------------- create_file

    ghost function InodeMap(): seq<bool>
      reads this, inodes, maps, dir
      requires Valid()
    {
      MapOf(maps.disk, IMAP_BLK0, 1)
    }

    ghost function SectorMap(): seq<bool>
      reads this, inodes, maps, dir
      requires Valid()
    {
      MapOf(maps.disk, SMAP_BLK0, nrSmapSects)
    }

    method AllocateInode() returns (k: nat)
      requires Valid() && FirstClear(InodeMap(), 0) < |InodeMap()|
      modifies maps, maps.fsbuf
      ensures Valid() && k == FirstClear(old(InodeMap()), 0)
      ensures InodeMap() == Fill(old(InodeMap()), k, k + 1, true) && SectorMap() == old(SectorMap())
    {
      k := maps.AllocImapBit(IMAP_BLK0, 1);
      SameMap(old(maps.disk), maps.disk, IMAP_BLK0, 1, SMAP_BLK0, nrSmapSects);
    }

    method AllocateExtent() returns (start: nat)
      requires Valid()
      requires AllClear(SectorMap(), FirstClear(SectorMap(), 0), FirstClear(SectorMap(), 0) + NR_DEFAULT_FILE_SECTS)
      modifies maps, maps.fsbuf
      ensures Valid() && InodeMap() == old(InodeMap())
      ensures var b := FirstClear(old(SectorMap()), 0);
              start == b - 1 + n1stSect && SectorMap() == Fill(old(SectorMap()), b, b + NR_DEFAULT_FILE_SECTS, true)
    {
      var ok;
      start, ok := maps.AllocSmapBit(SMAP_BLK0, nrSmapSects, n1stSect, NR_DEFAULT_FILE_SECTS);
      assert ok;
      SameMap(old(maps.disk), maps.disk, SMAP_BLK0, nrSmapSects, IMAP_BLK0, 1);
    }

    /** new_inode */
    method NewInode(k: nat, start: nat) returns (slot: nat)
      requires Valid() && 0 < k <= |inodes.Disk()| && SlotFor(inodes.table[..], k) >= 0
      modifies inodes, inodes.table
      ensures Valid() && slot == SlotFor(old(inodes.table[..]), k)
      ensures var f := Fields(I_REGULAR, 0, start, NR_DEFAULT_FILE_SECTS);
              && inodes.table[..] == Gotten(old(inodes.table[..]), old(inodes.Disk()), k)[slot := Inode(k, 1, f)]
              && inodes.Disk() == old(inodes.Disk())[k - 1 := f]
    {
      var s := inodes.GetInode(k);
      inodes.table[s] := Inode(k, 1, Fields(I_REGULAR, 0, start, NR_DEFAULT_FILE_SECTS));
      inodes.SyncInode(s);
      slot := s;
    }

    /** The bits of a new inode and of its extent. */
    method AllocateBits() returns (k: nat, start: nat)
      requires Valid() && CanAllocate(State())
      modifies maps, maps.fsbuf
      ensures Valid()
      ensures var fs := old(State()); var b := FirstClear(fs.sectorMap, 0);
              && k == FirstClear(fs.inodeMap, 0) && start == b - 1 + n1stSect
              && State() == fs.(inodeMap := Fill(fs.inodeMap, k, k + 1, true),
                                sectorMap := Fill(fs.sectorMap, b, b + NR_DEFAULT_FILE_SECTS, true))
    {
      k := AllocateInode();
      start := AllocateExtent();
    }

    method Allocate() returns (slot: nat)
      requires Valid() && CanAllocate(State())
      modifies inodes, inodes.table, maps, maps.fsbuf
      ensures Valid() && State() == Allocated(old(State()), n1stSect)
      ensures slot == SlotFor(old(State()).t.cache, FirstClear(old(State()).inodeMap, 0))
    {
      assert inodes.table[..] == State().t.cache;
      var k, start := AllocateBits();
      assert inodes.table[..] == State().t.cache;
      slot := NewInode(k, start);
    }

    /** The new size of the root directory, in the cache and on the disk. */
    method Resize(size: nat)
      requires Valid() && CacheOk(State().t.cache, State().disk)
      modifies inodes, inodes.table
      ensures Valid() && State() == Resized(old(State()), size)
    {
      var root := inodes.table[ROOT_SLOT];
      assert root == State().t.cache[ROOT_SLOT];
      inodes.table[ROOT_SLOT] := root.(f := root.f.(size := size));
      inodes.SyncInode(ROOT_SLOT);
    }

    /** new_dir_entry */
    method Enter(k: nat, name: seq<char>)
      requires Valid() && CacheOk(State().t.cache, State().disk) && |name| < MAX_FILENAME_LEN
      requires State().t.cache[ROOT_SLOT].f.size % DIR_ENTRY_SIZE == 0 && Entries(State().t.cache) < |State().slots|
      modifies inodes, inodes.table, dir
      ensures Valid() && State() == Entered(old(State()), k, name)
    {
      var root := inodes.table[ROOT_SLOT];
      assert root == State().t.cache[ROOT_SLOT];
      var size := dir.NewDirEntry(root.f.size, k, name);
      Resize(size);
    }

    method CreateFile(path: seq<char>) returns (slot: nat)
      requires Valid() && FsOk(State(), n1stSect) && CanAllocate(State()) && GoodPath(path) && '/' !in Stripped(path)
      modifies inodes, inodes.table, maps, maps.fsbuf, dir
      ensures Valid() && State() == NewFile(old(State()), n1stSect, path)
      ensures slot == SlotFor(old(State()).t.cache, FirstClear(old(State()).inodeMap, 0))
    {
      AllocateParts(State(), n1stSect);
      var ok, filename := StripPath(path);
      slot := Allocate();
      Enter(inodes.table[slot].num, filename);
    }

    // -------------------------------------------------------------- do_open, do_close, do_lseek

    /** The middle of do_open: the cache slot of the inode, or NIL. */
    method OpenInode(path: seq<char>, flags: nat, ghost p: nat) returns (slot: int)
      requires Valid() && OpenLegal(State(), n1stSect, p, path, flags)
      modifies inodes, inodes.table, maps, maps.fsbuf, dir
      ensures Valid() && OpenedInode(old(State()), State(), slot, n1stSect, p, path, flags)
    {
      var inodeNr := SearchPath(path);
      if Creates(flags) {
        var ok, filename := StripPath(path);
        if inodeNr != INVALID_INODE || !ok {
          return NIL;
        }
        slot := CreateFile(path);
      } else {
        if inodeNr == INVALID_INODE {
          return NIL;
        }
        LookupUsed(State(), n1stSect, path);
        slot := GetInode(inodeNr);
      }
    }

    /** ... with what remains to be done. */
    method OpenSlot(p: nat, path: seq<char>, flags: nat, fd: nat, d: nat, ghost fs: Fs) returns (slot: int)
      requires Valid() && fs == State() && OpenLegal(fs, n1stSect, p, path, flags)
      requires fd == FreeFd(fs.t.filp[p], 0) && d == FreeDesc(fs.t.descs, 0)
      modifies inodes, inodes.table, maps, maps.fsbuf, dir
      ensures Valid()
      ensures slot == NIL ==> Opened(fs, n1stSect, p, path, flags) == (State(), -1)
      ensures slot != NIL ==>
                && 0 <= slot < inodes.table.Length && CanAttach(State().t, p, fd, d, slot)
                && Opened(fs, n1stSect, p, path, flags)
                   == (State().(t := Refs.Attach(State().t, p, fd, d, slot, flags)), fd)
    {
      slot := OpenInode(path, flags, p);
      OpenedFrom(fs, State(), slot, n1stSect, p, path, flags);
    }

    /** The new descriptor number, or -1. */
    method DoOpen(p: nat, path: seq<char>, flags: nat) returns (fd: int)
      requires Valid() && OpenLegal(State(), n1stSect, p, path, flags)
      modifies filp, descs, inodes, inodes.table, maps, maps.fsbuf, dir
      ensures Valid() && (State(), fd) == Opened(old(State()), n1stSect, p, path, flags)
    {
      fd := FindFd(p);
      var d := FindDesc();
      ghost var fs := State();
      assert fs.t.filp[p] == filp[p];
      var slot := OpenSlot(p, path, flags, fd, d, fs);
      if slot == NIL {
        return -1;
      }
      Attach(p, fd, d, slot, flags);
    }

    /** One filp[] entry given up: put_inode, the descriptor's count, the entry. */
    method Release(p: nat, fd: nat)
      requires Valid() && CanDrop(State().t, p, fd)
      modifies filp, descs, inodes.table
      ensures Valid() && State() == old(State()).(t := Drop(old(State()).t, p, fd))
    {
      ghost var t := State().t;
      var d := filp[p][fd];
      assert descs[d] == t.descs[d] && inodes.table[descs[d].inode] == t.cache[descs[d].inode];
      inodes.PutInode(descs[d].inode);
      descs[d] := descs[d].(cnt := descs[d].cnt - 1);
      if descs[d].cnt == 0 {
        descs[d] := descs[d].(inode := NIL);
      }
      filp[p] := filp[p][fd := NIL];
    }

    method DoClose(p: nat, fd: nat) returns (r: int)
      requires Valid() && CloseLegal(State(), n1stSect, p, fd)
      modifies filp, descs, inodes.table
      ensures Valid() && State() == Closed(old(State()), n1stSect, p, fd) && r == 0
    {
      HeldCanDrop(State().t, p, fd);
      Release(p, fd);
      r := 0;
    }

    method DoLseek(p: nat, fd: nat, whence: int, off: int) returns (pos: int)
      requires Valid() && CloseLegal(State(), n1stSect, p, fd)
      modifies descs
      ensures Valid() && (State(), pos) == Sought(old(State()), n1stSect, p, fd, whence, off)
    {
      HeldCanDrop(State().t, p, fd);
      ghost var t := State().t;
      var d := filp[p][fd];
      assert descs[d] == t.descs[d] && inodes.table[descs[d].inode] == t.cache[descs[d].inode];
      pos := descs[d].pos;
      var fSize := inodes.table[descs[d].inode].f.size;
      if whence == FileIo.SEEK_SET {
        pos := off;
      } else if whence == FileIo.SEEK_CUR {
        pos := pos + off;
      } else if whence == FileIo.SEEK_END {
        pos := fSize + off;
      } else {
        return -1;
      }
      if pos > fSize || pos < 0 {
        return -1;
      }
      descs[d] := descs[d].(pos := pos);
    }

    // -------------------------------------------------------------- do_rdwt

    /** The position after n bytes, and the size if they end behind the file. */
    method Shift(p: nat, fd: nat, n: nat)
      requires Valid() && CloseLegal(State(), n1stSect, p, fd)
      modifies descs, inodes, inodes.table
      ensures Valid() && State() == Shifted(old(State()), n1stSect, p, fd, n)
    {
      HeldCanDrop(State().t, p, fd);
      ghost var t := State().t;
      var d := filp[p][fd];
      assert descs[d] == t.descs[d];
      var pin := descs[d].inode;
      assert inodes.table[pin] == t.cache[pin];
      descs[d] := descs[d].(pos := descs[d].pos + n);
      if descs[d].pos > inodes.table[pin].f.size {
        inodes.table[pin] := inodes.table[pin].(f := inodes.table[pin].f.(size := descs[d].pos));
        inodes.SyncInode(pin);
      }
    }

    /** The chunk loop leaves the tables alone. */
    method MoveBytes(write: bool, start: nat, pos: nat, limit: nat, buf: array<byte>, len: nat) returns (n: nat)
      requires Valid() && Apart(buf) && buf != data.fsbuf && buf != maps.fsbuf && len <= buf.Length
      requires SECTOR_SIZE * (start + pos / SECTOR_SIZE + FileIo.Sects(pos, len, limit)) <= |data.disk|
      requires SECTOR_SIZE * start + pos <= |data.disk|
      modifies data, data.fsbuf, buf
      ensures Valid() && State() == old(State()) && n == FileIo.Moved(pos, len, limit)
      ensures FileIo.Done(write, SECTOR_SIZE * start + pos, n, old(data.disk), old(buf[..]), data.disk, buf[..])
    {
      ghost var fs := State();
      n := data.Transfer(write, start, pos, limit, buf, len);
      assert filp[..] == fs.t.filp && descs[..] == fs.t.descs && inodes.table[..] == fs.t.cache;
    }

    /** READ or WRITE of len bytes at the descriptor's position.  A terminal's driver gets the request; its reply, which
        suspends the caller of a READ, is passed on.  Otherwise all sectors that the chunks go over exist. */
    method DoRdwt(p: nat, fd: nat, write: bool, buf: array<byte>, len: nat) returns (n: nat, suspended: bool)
      requires Valid() && CloseLegal(State(), n1stSect, p, fd) && CanDrop(State().t, p, fd)
      requires Apart(buf) && buf != data.fsbuf && buf != maps.fsbuf && len <= buf.Length
      requires var d := State().t.descs[State().t.filp[p][fd]]; var f := State().t.cache[d.inode].f;
               Movable(State(), d) ==>
                 && SECTOR_SIZE * (f.start + d.pos / SECTOR_SIZE
                    + FileIo.Sects(d.pos, len, Bound(f, write))) <= |data.disk|
                 && SECTOR_SIZE * f.start + d.pos <= |data.disk|
      modifies descs, inodes, inodes.table, data, data.fsbuf, buf
      ensures Valid() && State() == Transferred(old(State()), n1stSect, p, fd, write, len)
      ensures var d := old(State().t.descs[State().t.filp[p][fd]]); var f := old(State()).t.cache[d.inode].f;
              if Movable(old(State()), d) then
                && n == MovedBy(old(State()), d, write, len) && !suspended
                && FileIo.Done(write, SECTOR_SIZE * f.start + d.pos, n, old(data.disk), old(buf[..]), data.disk,
                   buf[..])
              else
                && n == (if ReadWrite(d.mode) then len else 0) && (suspended <==> ReadWrite(d.mode) && !write)
                && data.disk == old(data.disk) && buf[..] == old(buf[..])
    {
      ghost var t := State().t;
      var d := descs[filp[p][fd]];
      assert d == t.descs[t.filp[p][fd]];
      if !ReadWrite(d.mode) {
        return 0, false;
      }
      var f := inodes.table[d.inode].f;
      assert f == t.cache[d.inode].f;
      if f.mode == I_CHAR_SPECIAL {
        assert Major(f.start) == DEV_CHAR_TTY by { CachedMode(State(), n1stSect, d.inode); }
        return len, !write;
      }
      n := MoveBytes(write, f.start, d.pos, Bound(f, write), buf, len);
      Shift(p, fd, n);
      suspended := false;
    }

    // -------------------------------------------------------------- fs_fork, fs_exit

    /** An entry of the child's row counted. */
    method CountEntry(row: seq<int>, i: nat, ghost child: nat, ghost t: Tables)
      requires Valid() && ForkOk(t, child, row) && i < |row|
      requires descs[..] == Forked(t, child, row, i).descs && inodes.table[..] == Forked(t, child, row, i).cache
      modifies descs, inodes.table
      ensures descs[..] == Forked(t, child, row, i + 1).descs && inodes.table[..] == Forked(t, child, row, i + 1).cache
    {
      ghost var q := Forked(t, child, row, i);
      if row[i] != NIL {
        var d := row[i];
        assert descs[d] == q.descs[d];
        descs[d] := descs[d].(cnt := descs[d].cnt + 1);
        var s := descs[d].inode;
        assert inodes.table[s] == q.cache[s];
        inodes.table[s] := inodes.table[s].(cnt := inodes.table[s].cnt + 1);
      }
    }

    /** fs_fork's loop. */
    method CountRow(row: seq<int>, ghost child: nat, ghost t: Tables)
      requires Valid() && ForkOk(t, child, row) && descs[..] == t.descs && inodes.table[..] == t.cache
      modifies descs, inodes.table
      ensures descs[..] == Forked(t, child, row, |row|).descs && inodes.table[..] == Forked(t, child, row, |row|).cache
    {
      var i := 0;
      while i < |row|
        invariant 0 <= i <= |row|
        invariant descs[..] == Forked(t, child, row, i).descs && inodes.table[..] == Forked(t, child, row, i).cache
      {
        CountEntry(row, i, child, t);
        i := i + 1;
      }
    }

    /** The copy of the parent's filp[] into the child, and fs_fork. */
    method FsFork(child: nat, parent: nat) returns (r: int)
      requires Valid() && ForkLegal(State(), n1stSect, child, parent)
      modifies filp, descs, inodes.table
      ensures Valid() && State() == ForkedFs(old(State()), n1stSect, child, parent) && r == 0
    {
      ghost var t := State().t;
      var row := filp[parent];
      ParentForkOk(t, child, parent);
      ForkedRow(t, child, row);
      filp[child] := row;
      CountRow(row, child, t);
      assert filp[..] == t.filp[child := row];
      r := 0;
    }

    method FsExit(p: nat) returns (r: int)
      requires Valid() && FsOk(State(), n1stSect) && p < filp.Length
      modifies filp, descs, inodes.table
      ensures Valid() && State() == old(State()).(t := Exited(old(State()).t, p, 0)) && r == 0
    {
      ghost var fs := State();
      var n := |filp[p]|;
      var i := 0;
      while i < n
        invariant 0 <= i <= n == |filp[p]| && |State().t.filp| == filp.Length && State() == fs.(t := State().t)
        invariant RefsOk(State().t) && Exited(State().t, p, i) == Exited(fs.t, p, 0)
      {
        ghost var t := State().t;
        if filp[p][i] != NIL {
          HeldCanDrop(t, p, i);
          DropKeeps(t, p, i);
          Release(p, i);
        }
        i := i + 1;
      }
      r := 0;
    }

    // -------------------------------------------------------------- do_unlink

    /** The bit of inode k in the inode map. */
    method FreeInodeBit(k: nat)
      requires Valid() && k < |InodeMap()| && InodeMap()[k]
      modifies maps, maps.fsbuf
      ensures Valid() && InodeMap() == Fill(old(InodeMap()), k, k + 1, false) && SectorMap() == old(SectorMap())
    {
      maps.FreeImapBit(IMAP_BLK0, k);
      SameMap(old(maps.disk), maps.disk, IMAP_BLK0, 1, SMAP_BLK0, nrSmapSects);
    }

    /** The bits of an extent in the sector map. */
    method FreeExtent(bit: nat, nrSects: nat)
      requires Valid() && nrSects > 0 && AllSet(SectorMap(), bit, bit + nrSects)
      modifies maps, maps.fsbuf
      ensures Valid() && SectorMap() == Fill(old(SectorMap()), bit, bit + nrSects, false)
              && InodeMap() == old(InodeMap())
    {
      maps.FreeSmapBits(SMAP_BLK0, nrSmapSects, bit, nrSects);
      SameMap(old(maps.disk), maps.disk, SMAP_BLK0, nrSmapSects, IMAP_BLK0, 1);
    }

    method FreeBits(k: nat, bit: nat, nrSects: nat)
      requires Valid() && k < |State().inodeMap| && State().inodeMap[k] && nrSects > 0
      requires AllSet(State().sectorMap, bit, bit + nrSects)
      modifies maps, maps.fsbuf
      ensures Valid()
      ensures var fs := old(State());
              State() == fs.(inodeMap := Fill(fs.inodeMap, k, k + 1, false),
                  sectorMap := Fill(fs.sectorMap, bit, bit + nrSects, false))
    {
      FreeInodeBit(k);
      FreeExtent(bit, nrSects);
    }

    /** The inode cleared, written and put. */
    method ClearInode(k: nat, slot: nat)
      requires Valid() && slot < inodes.table.Length && inodes.table[slot].cnt > 0 && inodes.table[slot].num == k
      requires 0 < k <= |inodes.Disk()|
      modifies inodes, inodes.table
      ensures Valid()
      ensures inodes.table[..] == old(inodes.table[..])[slot := Inode(k, old(inodes.table[slot].cnt) - 1, BLANK)]
      ensures inodes.Disk() == old(inodes.Disk())[k - 1 := BLANK]
    {
      inodes.table[slot] := inodes.table[slot].(f := BLANK);
      inodes.SyncInode(slot);
      inodes.PutInode(slot);
    }

    method FreeFile(k: nat, slot: nat)
      requires Valid() && slot < inodes.table.Length && inodes.table[slot].cnt > 0 && inodes.table[slot].num == k
      requires var f := inodes.table[slot].f; var fs := State(); var b := f.start - n1stSect + 1;
               && 0 < k <= |fs.disk| && k < |fs.inodeMap| && fs.inodeMap[k] && f.nrSects > 0
               && b > 0 && AllSet(fs.sectorMap, b, b + f.nrSects)
      modifies inodes, inodes.table, maps, maps.fsbuf
      ensures Valid() && State() == Freed(old(State()), n1stSect, k, slot)
    {
      ghost var fs := State();
      var pin := inodes.table[slot];
      assert pin == fs.t.cache[slot];
      FreeBits(k, pin.f.start - n1stSect + 1, pin.f.nrSects);
      assert inodes.table[..] == fs.t.cache && inodes.Disk() == fs.disk;
      ClearInode(k, slot);
    }

    /** The slot in the directory, and its size if it was the last. */
    method Leave(k: nat)
      requires Valid() && CacheOk(State().t.cache, State().disk) && k != INVALID_INODE
      requires State().t.cache[ROOT_SLOT].f.size % DIR_ENTRY_SIZE == 0 && Entries(State().t.cache) <= |State().slots|
      requires SlotOf(State().slots, Entries(State().t.cache), k, 0) < Entries(State().t.cache)
      modifies inodes, inodes.table, dir
      ensures Valid() && State() == Unentered(old(State()), k)
    {
      var root := inodes.table[ROOT_SLOT];
      assert root == State().t.cache[ROOT_SLOT];
      var last, size := dir.RemoveEntry(root.f.size, k);
      if last {
        Resize(size);
      }
    }

    /** 0, or -1 when the unlink is refused. */
    method DoUnlink(path: seq<char>) returns (r: int)
      requires Valid() && UnlinkLegal(State(), n1stSect, path)
      modifies inodes, inodes.table, maps, maps.fsbuf, dir
      ensures Valid() && (State(), r) == Unlinked(old(State()), n1stSect, path)
    {
      if path == "/" {
        return -1;
      }
      var inodeNr := SearchPath(path);
      if inodeNr == INVALID_INODE {
        return -1;
      }
      var ok, filename := StripPath(path);
      if !ok {
        return -1;
      }
      LookupUsed(State(), n1stSect, path);
      r := UnlinkInode(path, inodeNr, State());
    }

    /** do_unlink from its get_inode on. */
    method UnlinkInode(path: seq<char>, inodeNr: nat, ghost fs: Fs) returns (r: int)
      requires Valid() && State() == fs && UnlinkLegal(fs, n1stSect, path) && Names(fs, path)
      requires inodeNr == Lookup(fs, path) && inodeNr in Taken(fs.inodeMap)
      modifies inodes, inodes.table, maps, maps.fsbuf, dir
      ensures Valid() && (State(), r) == Unlinked(fs, n1stSect, path)
    {
      var slot := GetInode(inodeNr);
      var pin := inodes.table[slot];
      assert pin == State().t.cache[slot];
      if pin.f.mode != I_REGULAR {
        return -1;
      }
      if pin.cnt > 1 {
        return -1;
      }
      FreedReady(fs, n1stSect, path);
      GotKeeps(fs, n1stSect, inodeNr);
      RemoveFile(inodeNr, slot, Taken(fs.inodeMap));
      return 0;
    }

    /** The rest of do_unlink, once nothing stands against it. */
    method RemoveFile(k: nat, slot: nat, ghost used: set<nat>)
      requires Valid() && Sound(State(), used, n1stSect) && k in used && k != ROOT_INODE && slot < inodes.table.Length
      requires var pin := State().t.cache[slot]; pin.cnt == 1 && pin.num == k && pin.f.mode == I_REGULAR
      requires HasEntry(State(), k)
      modifies inodes, inodes.table, maps, maps.fsbuf, dir
      ensures Valid()
      ensures 0 < k <= |old(State()).disk|
      ensures var freed := Freed(old(State()), n1stSect, k, slot);
              CacheOk(freed.t.cache, freed.disk) && Entries(freed.t.cache) <= |freed.slots| && HasEntry(freed, k)
              && State() == Unentered(freed, k)
    {
      FreeParts(State(), used, n1stSect, k, slot);
      assert inodes.table[slot] == State().t.cache[slot];
      FreeFile(k, slot);
      Leave(k);
    }
  }

  /** What is left of do_open once the inode is found or made: the descriptor on slot. */
  ghost predicate OpenedInode(fs: Fs, fs': Fs, slot: int, n1st: nat, p: nat, path: seq<char>, flags: nat)
    requires OpenLegal(fs, n1st, p, path, flags) && n1st > 0
  {
    if MakesFile(fs, path, flags) then
      fs' == NewFile(fs, n1st, path) && slot == SlotFor(fs.t.cache, FirstClear(fs.inodeMap, 0))
    else if Creates(flags) || Lookup(fs, path) == INVALID_INODE then fs' == fs && slot == NIL
    else
      LookupUsed(fs, n1st, path);
      fs' == Got(fs, Lookup(fs, path)) && slot == SlotFor(fs.t.cache, Lookup(fs, path))
  }

  lemma OpenedFrom(fs: Fs, fs': Fs, slot: int, n1st: nat, p: nat, path: seq<char>, flags: nat)
    requires OpenLegal(fs, n1st, p, path, flags) && n1st > 0 && OpenedInode(fs, fs', slot, n1st, p, path, flags)
    ensures fs'.t.filp == fs.t.filp && fs'.t.descs == fs.t.descs && NIL <= slot < |fs'.t.cache|
    ensures slot == NIL ==> Opened(fs, n1st, p, path, flags) == (fs', -1)
    ensures var fd, d := FreeFd(fs.t.filp[p], 0), FreeDesc(fs.t.descs, 0);
            slot != NIL ==>
              && CanAttach(fs'.t, p, fd, d, slot)
              && Opened(fs, n1st, p, path, flags) == (fs'.(t := Refs.Attach(fs'.t, p, fd, d, slot, flags)), fd)
  {
    if MakesFile(fs, path, flags) {
      AllocateParts(fs, n1st);
    }
  }

  lemma ForkedRow(t: Tables, child: nat, row: seq<int>)
    requires ForkOk(t, child, row)
    ensures Forked(t, child, row, |row|).filp == t.filp[child := row]
  {
    assert row[..|row|] + t.filp[child][|row|..] == row;
  }

  lemma SameMap(disk: seq<Sector>, disk': seq<Sector>, base: nat, n: nat, base': nat, n': nat)
    requires OnlyMap(disk, disk', base, n) && base' + n' <= |disk| && (base + n <= base' || base' + n' <= base)
    ensures MapOf(disk', base', n') == MapOf(disk, base', n')
  {
  }
}
