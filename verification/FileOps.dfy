/** Creating and unlinking files: what the operations do to the state, and that they keep the invariant. */
module FileOps {
  import opened Base
  import opened Bits
  import opened Extents
  import opened InodeCache
  import opened Directory
  import opened Refs
  import opened Files

  // ---------------------------------------------------------------- create_file, first half: new_inode

  /** A free inode, a free extent, and a cache slot: otherwise create_file panics or fails an assertion. */
  predicate CanAllocate(fs: Fs) {
    && FirstClear(fs.inodeMap, 0) < |fs.inodeMap| <= |fs.disk| && FirstClear(fs.inodeMap, 0) > 0
    && AllClear(fs.sectorMap, FirstClear(fs.sectorMap, 0), FirstClear(fs.sectorMap, 0) + NR_DEFAULT_FILE_SECTS)
    && SlotFor(fs.t.cache, FirstClear(fs.inodeMap, 0)) >= 0
  }

  /** The fields of the new inode; n1st is the sector that bit 1 of the sector map stands for. */
  function NewFields(fs: Fs, n1st: nat): Fields
    requires n1st > 0
  {
    Fields(I_REGULAR, 0, FirstClear(fs.sectorMap, 0) - 1 + n1st, NR_DEFAULT_FILE_SECTS)
  }

  function Allocated(fs: Fs, n1st: nat): Fs
    requires CanAllocate(fs) && n1st > 0
  {
    var k, f := FirstClear(fs.inodeMap, 0), FirstClear(fs.sectorMap, 0);
    var cache := Gotten(fs.t.cache, fs.disk, k)[SlotFor(fs.t.cache, k) := Inode(k, 1, NewFields(fs, n1st))];
    Fs(fs.t.(cache := cache), fs.disk[k - 1 := NewFields(fs, n1st)],
       Fill(fs.inodeMap, k, k + 1, true), Fill(fs.sectorMap, f, f + NR_DEFAULT_FILE_SECTS, true), fs.slots)
  }

  /** The free number is not cached: new_inode loads it into a free slot and holds the only reference. */
  lemma NewIsUncached(fs: Fs, n1st: nat)
    requires FsOk(fs, n1st) && CanAllocate(fs)
    ensures var k := FirstClear(fs.inodeMap, 0); var s := SlotFor(fs.t.cache, k);
            && k !in Taken(fs.inodeMap) && LiveSlot(fs.t.cache, k, 0) == -1 && fs.t.cache[s].cnt == 0 && s != ROOT_SLOT
            && Gotten(fs.t.cache, fs.disk, k) == fs.t.cache[s := Inode(k, 1, fs.disk[k - 1])]
  {
    var k := FirstClear(fs.inodeMap, 0);
    assert !fs.inodeMap[k];
  }

  lemma AllocateCache(cache: seq<Inode>, disk: seq<Fields>, k: nat, s: nat, f: Fields)
    requires CacheOk(cache, disk) && 0 < k <= |disk| && s < |cache| && cache[s].cnt == 0 && LiveSlot(cache, k, 0) == -1
    ensures CacheOk(cache[s := Inode(k, 1, f)], disk[k - 1 := f])
  {
    LoadAgrees(cache, disk, k, s);
    var c := cache[s := Inode(k, 1, disk[k - 1])];
    SyncAgrees(c, disk, s, f);
    assert c[s := c[s].(f := f)] == cache[s := Inode(k, 1, f)];
  }

  lemma AllocateSpace(sectorMap: seq<bool>, disk: seq<Fields>, used: set<nat>, n1st: nat, k: nat, f: Fields)
    requires SpaceOk(sectorMap, disk, used, n1st) && k !in used && 1 < k <= |disk| && n1st > 0
    requires AllClear(sectorMap, FirstClear(sectorMap, 0), FirstClear(sectorMap, 0) + NR_DEFAULT_FILE_SECTS)
    requires FirstClear(sectorMap, 0) > 0
             && f == Fields(I_REGULAR, 0, FirstClear(sectorMap, 0) - 1 + n1st, NR_DEFAULT_FILE_SECTS)
    ensures var b := FirstClear(sectorMap, 0);
            SpaceOk(Fill(sectorMap, b, b + NR_DEFAULT_FILE_SECTS, true), disk[k - 1 := f], used + {k}, n1st)
  {
    var b := FirstClear(sectorMap, 0);
    AllocKeeps(sectorMap, Starts(disk, used, n1st));
    StartsWith(disk, used, n1st, k, f);
    var disk', used' := disk[k - 1 := f], used + {k};
    forall j | Owns(disk', used', j, n1st) && j != k
      ensures Owns(disk, used, j, n1st) && disk[j - 1].start - n1st + 1 != b
    {
      assert Owns(disk, used, j, n1st);
      assert StartBit(disk, used, j, n1st) in Starts(disk, used, n1st);
    }
  }

  /** A new owner adds its first bit. */
  lemma StartsWith(disk: seq<Fields>, used: set<nat>, n1st: nat, k: nat, f: Fields)
    requires k !in used && 0 < k <= |disk| && f.mode != I_CHAR_SPECIAL && f.start >= n1st
    ensures Starts(disk[k - 1 := f], used + {k}, n1st) == Starts(disk, used, n1st) + {f.start - n1st + 1}
  {
    var disk', used' := disk[k - 1 := f], used + {k};
    forall x | x in Starts(disk, used, n1st) ensures x in Starts(disk', used', n1st) {
      var j :| j in used && Owns(disk, used, j, n1st) && StartBit(disk, used, j, n1st) == x;
      assert Owns(disk', used', j, n1st);
    }
    assert Owns(disk', used', k, n1st);
    forall x | x in Starts(disk', used', n1st) ensures x in Starts(disk, used, n1st) + {f.start - n1st + 1} {
      var j :| j in used' && Owns(disk', used', j, n1st) && StartBit(disk', used', j, n1st) == x;
      assert j != k ==> Owns(disk, used, j, n1st);
    }
  }

  // ---------------------------------------------------------------- create_file, second half: new_dir_entry

  /** The root directory's size, in the cache and, synchronised, on the disk. */
  function Resized(fs: Fs, size: nat): Fs
    requires ROOT_SLOT < |fs.t.cache| && 0 < fs.t.cache[ROOT_SLOT].num <= |fs.disk|
  {
    var root := fs.t.cache[ROOT_SLOT];
    var f := root.f.(size := size);
    fs.(t := fs.t.(cache := fs.t.cache[ROOT_SLOT := root.(f := f)]), disk := fs.disk[root.num - 1 := f])
  }

  function Entered(fs: Fs, k: nat, name: seq<char>): Fs
    requires CacheOk(fs.t.cache, fs.disk) && Entries(fs.t.cache) < |fs.slots| && |name| < MAX_FILENAME_LEN
  {
    var (slots, n) := Added(fs.slots, Entries(fs.t.cache), k, name);
    Resized(fs.(slots := slots), DIR_ENTRY_SIZE * n)
  }

  lemma ResizeCache(cache: seq<Inode>, disk: seq<Fields>, size: nat)
    requires CacheOk(cache, disk)
    ensures var f := cache[ROOT_SLOT].f.(size := size);
            CacheOk(cache[ROOT_SLOT := cache[ROOT_SLOT].(f := f)], disk[cache[ROOT_SLOT].num - 1 := f])
  {
    SyncAgrees(cache, disk, ROOT_SLOT, cache[ROOT_SLOT].f.(size := size));
  }

  lemma ResizeSpace(sectorMap: seq<bool>, disk: seq<Fields>, used: set<nat>, n1st: nat, size: nat)
    requires SpaceOk(sectorMap, disk, used, n1st) && ROOT_INODE <= |disk|
    ensures SpaceOk(sectorMap, disk[ROOT_INODE - 1 := disk[ROOT_INODE - 1].(size := size)], used, n1st)
  {
    SameSpace(sectorMap, disk, disk[ROOT_INODE - 1 := disk[ROOT_INODE - 1].(size := size)], used, n1st);
  }

  /** Sizes are not part of the extents. */
  lemma SameSpace(sectorMap: seq<bool>, disk: seq<Fields>, disk': seq<Fields>, used: set<nat>, n1st: nat)
    requires SpaceOk(sectorMap, disk, used, n1st) && |disk'| == |disk|
    requires forall k | k in used ::
              disk'[k - 1] == disk[k - 1].(size := disk'[k - 1].size) && InodeOk(k, disk'[k - 1], n1st)
    ensures SpaceOk(sectorMap, disk', used, n1st)
  {
    forall k ensures Owns(disk', used, k, n1st) <==> Owns(disk, used, k, n1st) {
    }
    forall x ensures x in Starts(disk', used, n1st) <==> x in Starts(disk, used, n1st) {
      if x in Starts(disk', used, n1st) {
        var k :| k in used && Owns(disk', used, k, n1st) && StartBit(disk', used, k, n1st) == x;
        assert Owns(disk, used, k, n1st) && StartBit(disk, used, k, n1st) == x;
      }
      if x in Starts(disk, used, n1st) {
        var k :| k in used && Owns(disk, used, k, n1st) && StartBit(disk, used, k, n1st) == x;
        assert Owns(disk', used, k, n1st) && StartBit(disk', used, k, n1st) == x;
      }
    }
    assert Starts(disk', used, n1st) == Starts(disk, used, n1st);
  }

  // ---------------------------------------------------------------- room in the directory

  /** The numbers in the first n slots. */
  function FirstNumbers(slots: seq<Entry>, n: nat): set<nat>
    requires n <= |slots|
  {
    if n == 0 then {} else FirstNumbers(slots, n - 1) + {slots[n - 1].inodeNr}
  }

  lemma {:induction false} FirstNumbersAre(slots: seq<Entry>, n: nat)
    requires n <= |slots|
    ensures forall x :: x in FirstNumbers(slots, n) <==> exists i :: 0 <= i < n && slots[i].inodeNr == x
  {
    if n > 0 { FirstNumbersAre(slots, n - 1); }
  }

  lemma {:induction false} AllDifferent(slots: seq<Entry>, n: nat)
    requires n <= |slots| && forall i, j | 0 <= i < j < n :: slots[i].inodeNr != slots[j].inodeNr
    ensures |FirstNumbers(slots, n)| == n
  {
    if n > 0 {
      AllDifferent(slots, n - 1);
      FirstNumbersAre(slots, n - 1);
    }
  }

  function Below(n: nat): set<nat> {
    if n <= 1 then {} else Below(n - 1) + {n - 1}
  }

  lemma {:induction false} BelowIs(n: nat)
    ensures n > 0 ==> |Below(n)| == n - 1
    ensures forall x: nat :: x in Below(n) <==> 0 < x < n
  {
    if n > 1 { BelowIs(n - 1); }
  }

  /** The directory never outgrows its extent: it grows only when all its slots are in use, with different inodes. */
  lemma GrowsOnlyWhenFull(slots: seq<Entry>, n: nat, used: set<nat>)
    requires n <= |slots| && SlotsHold(slots, used) && (forall k | k in used :: 0 < k < NR_INODES)
    ensures Place(slots, n, 0) < n || n < NR_INODES
  {
    if Place(slots, n, 0) == n {
      forall i | 0 <= i < n ensures LiveAt(slots, i) && slots[i].inodeNr in used {
        assert LiveAt(slots, i);
      }
      AllDifferent(slots, n);
      BelowIs(NR_INODES);
      FirstNumbersAre(slots, n);
      SubsetSize(FirstNumbers(slots, n), Below(NR_INODES));
    }
  }

  // ---------------------------------------------------------------- create_file

  function Created(fs: Fs, n1st: nat, name: seq<char>): Fs
    requires CanAllocate(fs) && n1st > 0 && |name| < MAX_FILENAME_LEN
    requires CacheOk(Allocated(fs, n1st).t.cache, Allocated(fs, n1st).disk)
    requires Entries(Allocated(fs, n1st).t.cache) < |fs.slots|
  {
    Entered(Allocated(fs, n1st), FirstClear(fs.inodeMap, 0), name)
  }

  lemma AllocateNums(fs: Fs, used: set<nat>, k: nat, s: nat, f: Fields)
    requires NumsOk(fs.inodeMap, fs.t.cache, used) && 0 < k < NR_INODES && s < |fs.t.cache|
    ensures NumsOk(Fill(fs.inodeMap, k, k + 1, true), fs.t.cache[s := Inode(k, 1, f)], used + {k})
  {
  }

  lemma AllocatedIs(fs: Fs, n1st: nat)
    requires FsOk(fs, n1st) && CanAllocate(fs) && n1st > 0
    ensures var k := FirstClear(fs.inodeMap, 0); var s := SlotFor(fs.t.cache, k);
            && Allocated(fs, n1st).t.cache == fs.t.cache[s := Inode(k, 1, NewFields(fs, n1st))]
            && s != ROOT_SLOT && fs.t.cache[s].cnt == 0 && LiveSlot(fs.t.cache, k, 0) == -1
               && k !in Taken(fs.inodeMap) && k > 1
  {
    NewIsUncached(fs, n1st);
  }

  lemma AllocateParts(fs: Fs, n1st: nat)
    requires FsOk(fs, n1st) && CanAllocate(fs) && n1st > 0
    ensures var a := Allocated(fs, n1st); var k := FirstClear(fs.inodeMap, 0); var used := Taken(fs.inodeMap);
            && Stored(a, used + {k}, n1st) && DirShape(a.slots, a.t.cache, used) && k !in used
            && OneMore(fs.t.cache, a.t.cache, SlotFor(fs.t.cache, k)) && a.t.cache[ROOT_SLOT] == fs.t.cache[ROOT_SLOT]
  {
    AllocatedIs(fs, n1st);
    var k, b := FirstClear(fs.inodeMap, 0), FirstClear(fs.sectorMap, 0);
    AllocateStored(fs, Taken(fs.inodeMap), n1st, k, SlotFor(fs.t.cache, k), b, NewFields(fs, n1st));
  }

  lemma AllocateStored(fs: Fs, used: set<nat>, n1st: nat, k: nat, s: nat, b: nat, f: Fields)
    requires Stored(fs, used, n1st) && 1 < k < NR_INODES && k !in used && n1st > 0
    requires s < |fs.t.cache| && s != ROOT_SLOT && fs.t.cache[s].cnt == 0 && LiveSlot(fs.t.cache, k, 0) == -1
    requires b == FirstClear(fs.sectorMap, 0) && AllClear(fs.sectorMap, b, b + NR_DEFAULT_FILE_SECTS)
    requires f == Fields(I_REGULAR, 0, b - 1 + n1st, NR_DEFAULT_FILE_SECTS)
    ensures Stored(Fs(fs.t.(cache := fs.t.cache[s := Inode(k, 1, f)]), fs.disk[k - 1 := f],
                    Fill(fs.inodeMap, k, k + 1, true),
                    Fill(fs.sectorMap, b, b + NR_DEFAULT_FILE_SECTS, true), fs.slots),
                 used + {k}, n1st)
  {
    AllocateCache(fs.t.cache, fs.disk, k, s, f);
    AllocateNums(fs, used, k, s, f);
    AllocateSpace(fs.sectorMap, fs.disk, used, n1st, k, f) by { assert fs.sectorMap[0]; }
  }

  lemma EnterHolds(slots: seq<Entry>, n: nat, used: set<nat>, k: nat, name: seq<char>)
    requires SlotsHold(slots, used) && n < |slots| && k != INVALID_INODE && k !in used && |name| < MAX_FILENAME_LEN
    ensures SlotsHold(Added(slots, n, k, name).0, used + {k})
  {
    var e, slots' := Place(slots, n, 0), Added(slots, n, k, name).0;
    forall i | LiveAt(slots', i) && i != e ensures LiveAt(slots, i) && slots'[i] == slots[i] {
    }
  }

  /** Entering a number that is in the inode map but not yet in the directory. */
  lemma EnterParts(a: Fs, used: set<nat>, n1st: nat, k: nat, name: seq<char>)
    requires Stored(a, used + {k}, n1st) && DirShape(a.slots, a.t.cache, used) && k !in used
             && |name| < MAX_FILENAME_LEN
    ensures var e := Entered(a, k, name);
            && Sound(e, used + {k}, n1st) && e.inodeMap == a.inodeMap
            && (forall x | 0 <= x < NR_INODE ::
                 e.t.cache[x].cnt == a.t.cache[x].cnt && e.t.cache[x].num == a.t.cache[x].num)
  {
    assert k in used + {k};
    var n := Entries(a.t.cache);
    GrowsOnlyWhenFull(a.slots, n, used) by {
      forall x | x in used ensures 0 < x < NR_INODES { assert x in used + {k}; }
    }
    EnterHolds(a.slots, n, used, k, name);
    var (slots', n') := Added(a.slots, n, k, name);
    ResizeKeeps(a.(slots := slots'), used + {k}, n1st, n');
  }

  /** Writing a new number of entries to the root inode. */
  lemma ResizeKeeps(a: Fs, used: set<nat>, n1st: nat, n: nat)
    requires Stored(a, used, n1st) && |a.slots| == DIR_SLOTS && SlotsHold(a.slots, used) && n <= NR_INODES
    ensures Sound(Resized(a, DIR_ENTRY_SIZE * n), used, n1st)
    ensures Entries(Resized(a, DIR_ENTRY_SIZE * n).t.cache) == n
  {
    ResizeCache(a.t.cache, a.disk, DIR_ENTRY_SIZE * n);
    ResizeSpace(a.sectorMap, a.disk, used, n1st, DIR_ENTRY_SIZE * n);
    var r := Resized(a, DIR_ENTRY_SIZE * n);
    assert a.t.cache[ROOT_SLOT].f == a.disk[ROOT_INODE - 1];
    assert NumsOk(r.inodeMap, r.t.cache, used);
    assert r.t.cache[ROOT_SLOT].f.size == DIR_ENTRY_SIZE * n;
  }

  // ---------------------------------------------------------------- do_unlink, first half: map bits and inode

  /** Both maps, the inode on the disk and in slot s of the cache, which loses its one reference. */
  function Freed(fs: Fs, n1st: nat, k: nat, s: nat): Fs
    requires s < |fs.t.cache| && fs.t.cache[s].cnt > 0 && 0 < k <= |fs.disk|
  {
    var node := fs.t.cache[s];
    var b := node.f.start - n1st + 1;
    Fs(fs.t.(cache := fs.t.cache[s := Inode(node.num, node.cnt - 1, BLANK)]), fs.disk[k - 1 := BLANK],
       Fill(fs.inodeMap, k, k + 1, false), Fill(fs.sectorMap, b, b + node.f.nrSects, false), fs.slots)
  }

  lemma FreeCache(cache: seq<Inode>, disk: seq<Fields>, k: nat, s: nat)
    requires CacheOk(cache, disk) && s < |cache| && cache[s].cnt == 1 && cache[s].num == k && k != ROOT_INODE
    ensures 0 < k <= |disk| && CacheOk(cache[s := Inode(k, 0, BLANK)], disk[k - 1 := BLANK])
  {
    SyncAgrees(cache, disk, s, BLANK);
    PutAgrees(cache[s := cache[s].(f := BLANK)], disk[k - 1 := BLANK], s);
    assert cache[s := cache[s].(f := BLANK)][s := Inode(k, 0, BLANK)] == cache[s := Inode(k, 0, BLANK)];
  }

  /** The number is cached nowhere else. */
  lemma FreeNums(inodeMap: seq<bool>, cache: seq<Inode>, disk: seq<Fields>, used: set<nat>, k: nat, s: nat)
    requires NumsOk(inodeMap, cache, used) && Agrees(cache, disk) && k in used && k != ROOT_INODE
    requires s < |cache| && cache[s].cnt == 1 && cache[s].num == k
    ensures inodeMap[k] && NumsOk(Fill(inodeMap, k, k + 1, false), cache[s := Inode(k, 0, BLANK)], used - {k})
  {
  }

  /** The extent's bits are all set, as do_unlink asserts, and only its own start bit leaves the set. */
  lemma FreeSpace(sectorMap: seq<bool>, disk: seq<Fields>, used: set<nat>, n1st: nat, k: nat)
    requires SpaceOk(sectorMap, disk, used, n1st) && k in used && 0 < k <= |disk| && disk[k - 1].mode == I_REGULAR
             && k != ROOT_INODE
    ensures var b := disk[k - 1].start - n1st + 1;
            && b > 0 && AllSet(sectorMap, b, b + NR_DEFAULT_FILE_SECTS)
            && SpaceOk(Fill(sectorMap, b, b + NR_DEFAULT_FILE_SECTS, false), disk[k - 1 := BLANK], used - {k}, n1st)
  {
    assert Owns(disk, used, k, n1st);
    var b := StartBit(disk, used, k, n1st);
    assert b in Starts(disk, used, n1st);
    FreeKeeps(sectorMap, Starts(disk, used, n1st), b);
    var disk', used' := disk[k - 1 := BLANK], used - {k};
    forall j | Owns(disk', used', j, n1st) ensures Owns(disk, used, j, n1st) {
    }
    StartsWithout(disk, used, n1st, k);
  }

  lemma StartsWithout(disk: seq<Fields>, used: set<nat>, n1st: nat, k: nat)
    requires Owns(disk, used, k, n1st)
    requires forall j, j' | Owns(disk, used, j, n1st) && Owns(disk, used, j', n1st) && j != j' ::
               disk[j - 1].start != disk[j' - 1].start
    ensures Starts(disk[k - 1 := BLANK], used - {k}, n1st) == Starts(disk, used, n1st) - {StartBit(disk, used, k, n1st)}
  {
    var disk', used' := disk[k - 1 := BLANK], used - {k};
    forall x
      ensures x in Starts(disk', used', n1st) <==> x in Starts(disk, used, n1st) - {StartBit(disk, used, k, n1st)}
    {
      if x in Starts(disk', used', n1st) {
        var j :| j in used' && Owns(disk', used', j, n1st) && StartBit(disk', used', j, n1st) == x;
        assert Owns(disk, used, j, n1st) && StartBit(disk, used, j, n1st) == x;
      }
      if x in Starts(disk, used, n1st) && x != StartBit(disk, used, k, n1st) {
        var j :| j in used && Owns(disk, used, j, n1st) && StartBit(disk, used, j, n1st) == x;
        assert Owns(disk', used', j, n1st) && StartBit(disk', used', j, n1st) == x;
      }
    }
  }

  lemma FreeParts(fs: Fs, used: set<nat>, n1st: nat, k: nat, s: nat)
    requires Stored(fs, used, n1st) && k in used && k != ROOT_INODE
    requires s < |fs.t.cache| && fs.t.cache[s].cnt == 1 && fs.t.cache[s].num == k && fs.t.cache[s].f.mode == I_REGULAR
    ensures var f := fs.t.cache[s].f; var b := f.start - n1st + 1;
            && 0 < k <= |fs.disk| && fs.inodeMap[k] && b > 0 && f.nrSects == NR_DEFAULT_FILE_SECTS
            && AllSet(fs.sectorMap, b, b + f.nrSects) && s != ROOT_SLOT
            && Stored(Freed(fs, n1st, k, s), used - {k}, n1st)
  {
    FreeCache(fs.t.cache, fs.disk, k, s);
    FreeNums(fs.inodeMap, fs.t.cache, fs.disk, used, k, s);
    assert fs.t.cache[s].f == fs.disk[k - 1];
    FreeSpace(fs.sectorMap, fs.disk, used, n1st, k);
  }

  // ---------------------------------------------------------------- do_unlink, second half: the directory

  function Unentered(fs: Fs, k: nat): Fs
    requires CacheOk(fs.t.cache, fs.disk) && Entries(fs.t.cache) <= |fs.slots|
    requires SlotOf(fs.slots, Entries(fs.t.cache), k, 0) < Entries(fs.t.cache)
  {
    var n := Entries(fs.t.cache);
    var (slots', n') := Removed(fs.slots, n, k);
    var fs' := fs.(slots := slots');
    if SlotOf(fs.slots, n, k, 0) == n - 1 then Resized(fs', DIR_ENTRY_SIZE * n') else fs'
  }

  /** Inode k has an entry, and it is not the last one or no free slot lies before an entry in front of it. */
  ghost predicate NoHole(fs: Fs, k: nat)
    requires ROOT_SLOT < |fs.t.cache| && Entries(fs.t.cache) <= |fs.slots|
  {
    var n := Entries(fs.t.cache);
    var e := SlotOf(fs.slots, n, k, 0);
    e < n && (e < n - 1 || NoHoleBefore(fs.slots, e))
  }

  /** do_unlink's last assertion: inode k has a slot inside the directory. */
  predicate HasEntry(fs: Fs, k: nat)
    requires ROOT_SLOT < |fs.t.cache| && Entries(fs.t.cache) <= |fs.slots|
  {
    SlotOf(fs.slots, Entries(fs.t.cache), k, 0) < Entries(fs.t.cache)
  }

  lemma RemoveHolds(slots: seq<Entry>, n: nat, used: set<nat>, k: nat)
    requires SlotsHold(slots, used) && n <= |slots| && k != INVALID_INODE && SlotOf(slots, n, k, 0) < n
    ensures SlotsHold(Removed(slots, n, k).0, used - {k})
  {
    var e, slots' := SlotOf(slots, n, k, 0), Removed(slots, n, k).0;
    assert LiveAt(slots, e);
    forall i | LiveAt(slots', i) ensures i != e && LiveAt(slots, i) && slots'[i] == slots[i] {
    }
  }

  /** Leaving the directory, whatever the size becomes. */
  lemma RemoveParts(a: Fs, used: set<nat>, n1st: nat, k: nat)
    requires Stored(a, used - {k}, n1st) && DirShape(a.slots, a.t.cache, used) && k != INVALID_INODE && HasEntry(a, k)
    ensures var u := Unentered(a, k);
            && Sound(u, used - {k}, n1st) && u.inodeMap == a.inodeMap
            && (forall x | 0 <= x < NR_INODE ::
                 u.t.cache[x].cnt == a.t.cache[x].cnt && u.t.cache[x].num == a.t.cache[x].num)
  {
    var n := Entries(a.t.cache);
    var (slots', n') := Removed(a.slots, n, k);
    RemoveHolds(a.slots, n, used, k);
    if SlotOf(a.slots, n, k, 0) == n - 1 {
      ResizeKeeps(a.(slots := slots'), used - {k}, n1st, n');
    }
  }
}
