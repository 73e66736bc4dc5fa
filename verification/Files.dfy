/**
 The state of the file server between two requests and the invariant that ties its parts together: reference
 counts, the inode cache, the two maps, the extents and the root directory.
 */
module Files {
  import opened Base
  import opened Bits
  import opened Extents
  import opened InodeCache
  import opened Directory
  import opened Refs

  const I_REGULAR := 32768
  const I_DIRECTORY := 16384
  const I_CHAR_SPECIAL := 8192
  const ROOT_INODE := 1
  const NR_INODES := 4096
  /** The slots of the root directory's extent. */
  const DIR_SLOTS := 65536
  const DEV_CHAR_TTY := 4

  datatype Fs = Fs(t: Tables, disk: seq<Fields>, inodeMap: seq<bool>, sectorMap: seq<bool>, slots: seq<Entry>)

  // ---------------------------------------------------------------- the invariant

  ghost predicate CacheOk(cache: seq<Inode>, disk: seq<Fields>) {
    && |cache| == NR_INODE && |disk| == NR_INODES && Agrees(cache, disk)
    && cache[ROOT_SLOT].num == ROOT_INODE && cache[ROOT_SLOT].cnt > 0
  }

  /** The inode map marks 0 and the numbers in use; only those are cached. */
  ghost predicate NumsOk(inodeMap: seq<bool>, cache: seq<Inode>, used: set<nat>) {
    && |inodeMap| == NR_INODES && ROOT_INODE in used
    && (forall k | 0 <= k < NR_INODES :: inodeMap[k] <==> k == 0 || k in used)
    && (forall k | k in used :: 0 < k < NR_INODES)
    && (forall s | 0 <= s < |cache| && cache[s].cnt > 0 :: cache[s].num in used)
  }

  /** MAJOR(dev) */
  function Major(dev: nat): nat { dev / 256 % 256 }

  /** The root directory, a terminal, or a regular file with an extent; a READ may have grown it over its extent. */
  predicate InodeOk(k: nat, f: Fields, n1st: nat) {
    if k == ROOT_INODE then f.mode == I_DIRECTORY && f.start == n1st && f.nrSects == NR_DEFAULT_FILE_SECTS
    else (f.mode == I_CHAR_SPECIAL && Major(f.start) == DEV_CHAR_TTY)
         || (f.mode == I_REGULAR && f.nrSects == NR_DEFAULT_FILE_SECTS && f.start >= n1st)
  }

  /** Inode k has an extent. */
  predicate Owns(disk: seq<Fields>, used: set<nat>, k: nat, n1st: nat) {
    k in used && 0 < k <= |disk| && disk[k - 1].mode != I_CHAR_SPECIAL && disk[k - 1].start >= n1st
  }

  /** The first bit of its extent in the sector map. */
  function StartBit(disk: seq<Fields>, used: set<nat>, k: nat, n1st: nat): nat
    requires Owns(disk, used, k, n1st)
  {
    disk[k - 1].start - n1st + 1
  }

  ghost function Starts(disk: seq<Fields>, used: set<nat>, n1st: nat): set<nat> {
    set k | k in used && Owns(disk, used, k, n1st) :: StartBit(disk, used, k, n1st)
  }

  /** The sector map is bit 0 and the extents in use, and no two inodes share one. */
  ghost predicate SpaceOk(sectorMap: seq<bool>, disk: seq<Fields>, used: set<nat>, n1st: nat) {
    && (forall k | k in used :: 0 < k <= |disk| && InodeOk(k, disk[k - 1], n1st))
    && Matches(sectorMap, Starts(disk, used, n1st))
    && (forall k, k' | Owns(disk, used, k, n1st) && Owns(disk, used, k', n1st) && k != k' ::
          disk[k - 1].start != disk[k' - 1].start)
  }

  /** nr_dir_entries */
  function Entries(cache: seq<Inode>): nat
    requires ROOT_SLOT < |cache|
  {
    cache[ROOT_SLOT].f.size / DIR_ENTRY_SIZE
  }

  /** Slots in use, also those behind the end of the directory, hold different numbers, all in use; free slots are
      zero.  A number in use may have no slot: a directory that shrank too far overwrites slots behind its end when it
      grows again. */
  ghost predicate SlotsHold(slots: seq<Entry>, used: set<nat>) {
    && FreeZero(slots) && (forall i | LiveAt(slots, i) :: slots[i].inodeNr in used)
    && (forall i, j | LiveAt(slots, i) && LiveAt(slots, j) && i != j :: slots[i].inodeNr != slots[j].inodeNr)
  }

  ghost predicate DirShape(slots: seq<Entry>, cache: seq<Inode>, used: set<nat>) {
    && |slots| == DIR_SLOTS && |cache| == NR_INODE && cache[ROOT_SLOT].f.size % DIR_ENTRY_SIZE == 0
    && Entries(cache) <= NR_INODES && SlotsHold(slots, used)
  }

  /** Cache, maps, inodes and extents; `used` are the inode numbers in use. */
  ghost predicate Stored(fs: Fs, used: set<nat>, n1st: nat) {
    && CacheOk(fs.t.cache, fs.disk) && NumsOk(fs.inodeMap, fs.t.cache, used)
    && SpaceOk(fs.sectorMap, fs.disk, used, n1st)
  }

  /** All but the reference counts. */
  ghost predicate Sound(fs: Fs, used: set<nat>, n1st: nat) {
    Stored(fs, used, n1st) && DirShape(fs.slots, fs.t.cache, used)
  }

  /** The numbers marked in the inode map. */
  ghost function Taken(inodeMap: seq<bool>): set<nat> {
    set k: nat | 0 < k < |inodeMap| && inodeMap[k]
  }

  lemma TakenIs(inodeMap: seq<bool>, cache: seq<Inode>, used: set<nat>)
    requires NumsOk(inodeMap, cache, used)
    ensures used == Taken(inodeMap)
  {
  }

  ghost predicate FsOk(fs: Fs, n1st: nat) {
    RefsOk(fs.t) && Sound(fs, Taken(fs.inodeMap), n1st)
  }

  /** The directory is a map from names to all the numbers in use. */
  ghost predicate Named(fs: Fs)
    requires ROOT_SLOT < |fs.t.cache|
  {
    DirOk(fs.slots, Entries(fs.t.cache)) && Used(fs.slots) == Taken(fs.inodeMap)
  }

  /** The extents of two files have no sector in common, and none lies before the data area. */
  lemma ExtentsDisjoint(fs: Fs, n1st: nat, k: nat, k': nat)
    requires FsOk(fs, n1st) && k != k' && Owns(fs.disk, Taken(fs.inodeMap), k, n1st)
             && Owns(fs.disk, Taken(fs.inodeMap), k', n1st)
    ensures var f, f' := fs.disk[k - 1], fs.disk[k' - 1];
            && f.nrSects == f'.nrSects == NR_DEFAULT_FILE_SECTS
            && (f.start + f.nrSects <= f'.start || f'.start + f'.nrSects <= f.start)
  {
    var used := Taken(fs.inodeMap);
    assert StartBit(fs.disk, used, k, n1st) in Starts(fs.disk, used, n1st);
    assert StartBit(fs.disk, used, k', n1st) in Starts(fs.disk, used, n1st);
    BlocksApart(StartBit(fs.disk, used, k, n1st), StartBit(fs.disk, used, k', n1st));
  }

  lemma BlocksApart(a: nat, b: nat)
    requires IsBlock(a) && IsBlock(b) && a != b
    ensures a + NR_DEFAULT_FILE_SECTS <= b || b + NR_DEFAULT_FILE_SECTS <= a
  {
  }

  // ---------------------------------------------------------------- names

  /** Names longer than eleven characters overrun the name buffers. */
  predicate GoodPath(path: seq<char>) {
    |Stripped(path)| < MAX_FILENAME_LEN && NUL !in path
  }

  /** search_file */
  function Lookup(fs: Fs, path: seq<char>): nat
    requires ROOT_SLOT < |fs.t.cache| && Limit(Entries(fs.t.cache)) <= |fs.slots|
  {
    if '/' in Stripped(path) then INVALID_INODE
    else if Stripped(path) == [] then ROOT_INODE
    else Search(fs.slots, Entries(fs.t.cache), Stripped(path))
  }

  lemma StrippedGood(path: seq<char>)
    requires GoodPath(path) && '/' !in Stripped(path) && Stripped(path) != []
    ensures GoodName(Stripped(path))
  {
    forall c | c in Stripped(path) ensures c in path {
    }
  }

  /** A slash in front of a name makes no difference. */
  lemma LeadingSlash(fs: Fs, name: seq<char>)
    requires ROOT_SLOT < |fs.t.cache| && Limit(Entries(fs.t.cache)) <= |fs.slots| && GoodName(name)
    ensures GoodPath("/" + name) && GoodPath(name)
    ensures Lookup(fs, "/" + name) == Lookup(fs, name) == Search(fs.slots, Entries(fs.t.cache), name)
  {
    assert ("/" + name)[1..] == name;
    assert name[0] in name;
  }

  /** A path without a name leads to the root. */
  lemma RootPaths(fs: Fs)
    requires ROOT_SLOT < |fs.t.cache| && Limit(Entries(fs.t.cache)) <= |fs.slots|
    ensures Lookup(fs, "/") == Lookup(fs, "") == 1
  {
    assert "/"[1..] == "";
  }

  /** A slash behind the first character and among the twelve taken leads nowhere. */
  lemma InnerSlash(fs: Fs, path: seq<char>, i: nat)
    requires ROOT_SLOT < |fs.t.cache| && Limit(Entries(fs.t.cache)) <= |fs.slots|
    requires 0 < i < |path| && path[i] == '/' && i < if path[0] == '/' then 13 else 12
    ensures Lookup(fs, path) == 0
  {
    if path[0] == '/' {
      assert path[1..][i - 1] == '/';
      assert Stripped(path)[i - 1] == '/';
    } else {
      assert Stripped(path)[i] == '/';
    }
  }

  /** Of a longer path only twelve characters behind the slash count. */
  lemma TwelveCount(fs: Fs, path: seq<char>)
    requires ROOT_SLOT < |fs.t.cache| && Limit(Entries(fs.t.cache)) <= |fs.slots|
    requires |path| > 13 && path[0] == '/' && path[1] != '/'
    ensures Lookup(fs, path) == Lookup(fs, path[..13]) == Lookup(fs, path[1..13])
  {
    assert path[1..][..12] == path[1..13] == path[..13][1..];
  }

  /** search_file returns 0 or the number of an inode in use. */
  lemma LookupUsed(fs: Fs, n1st: nat, path: seq<char>)
    requires FsOk(fs, n1st)
    ensures Lookup(fs, path) == INVALID_INODE || Lookup(fs, path) in Taken(fs.inodeMap)
  {
    if '/' !in Stripped(path) && Stripped(path) != [] {
      SearchFound(fs.slots, Padded(Stripped(path)), 0, Limit(Entries(fs.t.cache)));
    }
  }

  lemma {:induction false} SearchFound(slots: seq<Entry>, key: Name, i: nat, lim: nat)
    requires i <= lim <= |slots|
    ensures var k := SearchFrom(slots, key, i, lim);
            k == INVALID_INODE || exists j :: LiveAt(slots, j) && slots[j].inodeNr == k
    decreases lim - i
  {
    if i < lim {
      if slots[i].name == key {
        assert slots[i].inodeNr != INVALID_INODE ==> LiveAt(slots, i);
      } else {
        SearchFound(slots, key, i + 1, lim);
      }
    }
  }

  // ---------------------------------------------------------------- get_inode

  function Got(fs: Fs, k: nat): Fs
    requires 0 < k <= |fs.disk| && SlotFor(fs.t.cache, k) >= 0
  {
    fs.(t := fs.t.(cache := Gotten(fs.t.cache, fs.disk, k)))
  }

  lemma GottenCounts(cache: seq<Inode>, disk: seq<Fields>, k: nat)
    requires 0 < k <= |disk| && SlotFor(cache, k) >= 0
    ensures OneMore(cache, Gotten(cache, disk, k), SlotFor(cache, k))
  {
  }

  lemma GottenOk(cache: seq<Inode>, disk: seq<Fields>, k: nat)
    requires CacheOk(cache, disk) && 0 < k <= |disk| && SlotFor(cache, k) >= 0
    ensures var c, s := Gotten(cache, disk, k), SlotFor(cache, k);
            && CacheOk(c, disk) && c[s].num == k && c[s].cnt > 0 && c[ROOT_SLOT].f == cache[ROOT_SLOT].f
            && forall x | 0 <= x < |c| && x != s :: c[x] == cache[x]
  {
    GetAgrees(cache, disk, k);
  }

  lemma GotKeeps(fs: Fs, n1st: nat, k: nat)
    requires FsOk(fs, n1st) && k in Taken(fs.inodeMap) && SlotFor(fs.t.cache, k) >= 0
    ensures FsOk(Got(fs, k), n1st)
    ensures forall x | 0 <= x < NR_INODE ::
              Leak(Got(fs, k).t, x) == Leak(fs.t, x) + if x == SlotFor(fs.t.cache, k) then 1 else 0
  {
    GottenCounts(fs.t.cache, fs.disk, k);
    GottenOk(fs.t.cache, fs.disk, k);
    GetLeaks(fs.t, Gotten(fs.t.cache, fs.disk, k), SlotFor(fs.t.cache, k));
  }
}
