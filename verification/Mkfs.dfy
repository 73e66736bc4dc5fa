/** mkfs and init_fs: the maps, the first sector of inodes and the root directory written, the root inode held. */
module Mkfs {
  import opened Base
  import opened Bits
  import opened Extents
  import opened SectorMap
  import opened InodeCache
  import opened Directory
  import opened Refs
  import opened Files
  import opened FsRuns
  import FileIo
  import opened FileServer

  const NR_CONSOLES := 3

  /** The set bits are the first n. */
  ghost predicate FirstSet(bits: seq<bool>, n: nat) {
    forall b | 0 <= b < |bits| :: bits[b] <==> b < n
  }

  class Maker {
    const maps: SectorDisk

    constructor (maps: SectorDisk)
      ensures this.maps == maps
    {
      this.maps := maps;
    }

    /** memset(fsbuf, 0, SECTOR_SIZE) */
    method ClearBuffer()
      requires maps.Valid()
      modifies maps.fsbuf
      ensures FirstSet(maps.Held(), 0)
    {
      for i := 0 to SECTOR_SIZE
        invariant forall k | 0 <= k < i :: maps.fsbuf[k] == 0
      {
        maps.fsbuf[i] := 0;
      }
      forall b | 0 <= b < SECTOR_BITS ensures !maps.Held()[b] {
        ZeroByte(b % 8);
        assert maps.Buffer()[b / 8] == 0;
      }
    }

    /** fsbuf[j] = 0xff */
    method FillByte(j: nat)
      requires maps.Valid() && j < SECTOR_SIZE
      modifies maps.fsbuf
      ensures maps.Held() == Fill(old(maps.Held()), 8 * j, 8 * j + 8, true)
    {
      ghost var b := maps.Buffer();
      FullByteBits();
      ByteReplaced(b, j, 0xff, 0, 8, true);
      maps.fsbuf[j] := 0xff;
      assert maps.Buffer() == b[j := 0xff];
    }

    /** The first n bits of the buffer set: full bytes, then single bits. */
    method SetFirst(n: nat)
      requires maps.Valid() && n < SECTOR_BITS
      modifies maps.fsbuf
      ensures FirstSet(maps.Held(), n)
    {
      ClearBuffer();
      for i := 0 to n / 8
        invariant FirstSet(maps.Held(), 8 * i)
      {
        FillByte(i);
      }
      for j := 0 to n % 8
        invariant FirstSet(maps.Held(), 8 * (n / 8) + j)
      {
        maps.SetBitAt(n / 8, j);
      }
    }

    /** The inode map marks 0 and the four files; the sector map bit 0 and the root directory's extent. */
    method WriteMaps(nrSmapSects: nat)
      requires maps.Valid() && nrSmapSects > 0 && SMAP_BLK0 + nrSmapSects <= |maps.disk|
      modifies maps, maps.fsbuf
      ensures maps.Valid() && |maps.disk| == |old(maps.disk)|
      ensures FirstSet(MapOf(maps.disk, IMAP_BLK0, 1), NR_CONSOLES + 2)
      ensures FirstSet(MapOf(maps.disk, SMAP_BLK0, nrSmapSects), 1 + NR_DEFAULT_FILE_SECTS)
    {
      SetFirst(NR_CONSOLES + 2);
      ghost var inodeBits := maps.Buffer();
      maps.WrSect(IMAP_BLK0);
      SetFirst(NR_DEFAULT_FILE_SECTS + 1);
      ghost var sectorBits := maps.Buffer();
      maps.WrSect(SMAP_BLK0);
      ClearBuffer();
      ghost var zeros := maps.Buffer();
      for i := 1 to nrSmapSects
        invariant |maps.disk| == |old(maps.disk)| && maps.Buffer() == zeros
        invariant maps.disk[IMAP_BLK0] == inodeBits && maps.disk[SMAP_BLK0] == sectorBits
        invariant forall s | SMAP_BLK0 < s < SMAP_BLK0 + i :: maps.disk[s] == zeros
      {
        maps.WrSect(SMAP_BLK0 + i);
      }
      MapsWritten(maps.disk, nrSmapSects, inodeBits, sectorBits, zeros);
    }
  }

  lemma MapsWritten(disk: seq<Sector>, nr: nat, inodeBits: Sector, sectorBits: Sector, zeros: Sector)
    requires nr > 0 && SMAP_BLK0 + nr <= |disk| && disk[IMAP_BLK0] == inodeBits && disk[SMAP_BLK0] == sectorBits
    requires forall s | SMAP_BLK0 < s < SMAP_BLK0 + nr :: disk[s] == zeros
    requires FirstSet(BitsOf(inodeBits), NR_CONSOLES + 2) && FirstSet(BitsOf(sectorBits), 1 + NR_DEFAULT_FILE_SECTS)
    requires FirstSet(BitsOf(zeros), 0)
    ensures FirstSet(MapOf(disk, IMAP_BLK0, 1), NR_CONSOLES + 2)
    ensures FirstSet(MapOf(disk, SMAP_BLK0, nr), 1 + NR_DEFAULT_FILE_SECTS)
  {
    SectorOfMap(disk, IMAP_BLK0, 1, 0);
    var m := MapOf(disk, SMAP_BLK0, nr);
    forall b | 0 <= b < SECTOR_BITS * nr ensures m[b] <==> b < 1 + NR_DEFAULT_FILE_SECTS {
      var s, r := b / SECTOR_BITS, b % SECTOR_BITS;
      assert b == SECTOR_BITS * s + r;
      SectorOfMap(disk, SMAP_BLK0, nr, s);
      assert m[b] == BitsOf(disk[SMAP_BLK0 + s])[r];
    }
  }

  /** The first sector of inodes: the root, the terminals, and nothing. */
  method MkfsInodes(inodes: InodeTable, n1st: nat)
    requires inodes.Valid() && |inodes.sects| > 0
    modifies inodes
    ensures inodes.Valid() && |inodes.sects| == |old(inodes.sects)| && INODES_PER_SECTOR <= |inodes.Disk()|
    ensures forall k | 0 < k <= INODES_PER_SECTOR :: inodes.Disk()[k - 1] == MkfsInode(k, n1st)
  {
    var sect := seq(INODES_PER_SECTOR, _ => BLANK);
    sect := sect[0 := Fields(I_DIRECTORY, 4 * DIR_ENTRY_SIZE, n1st, NR_DEFAULT_FILE_SECTS)];
    for i := 0 to NR_CONSOLES
      invariant |sect| == INODES_PER_SECTOR
      invariant forall j | 0 <= j < INODES_PER_SECTOR :: sect[j] == if j < i + 1 then MkfsInode(j + 1, n1st) else BLANK
    {
      sect := sect[i + 1 := Fields(I_CHAR_SPECIAL, 0, DEV_TTY0 + i, 0)];
    }
    inodes.sects := inodes.sects[0 := sect];
  }

  /** The slots behind the first sector of the directory, which mkfs does not write, are zero. */
  ghost predicate RestZero(slots: seq<Entry>) {
    forall i | PER_SECTOR <= i < |slots| :: slots[i] == ZERO_ENTRY
  }

  /** The first sector of the root directory. */
  method MkfsRoot(dir: RootDirectory)
    requires dir.Valid() && |dir.blocks| == DIR_SLOTS / PER_SECTOR
    modifies dir
    ensures dir.Valid() && |dir.Slots()| == |old(dir.Slots())| == DIR_SLOTS
    ensures forall i | 0 <= i < PER_SECTOR :: dir.Slots()[i] == MkfsEntry(i)
    ensures forall i | PER_SECTOR <= i < DIR_SLOTS :: dir.Slots()[i] == old(dir.Slots())[i]
  {
    var sect := seq(PER_SECTOR, _ => ZERO_ENTRY);
    sect := sect[0 := Entry(ROOT_INODE, Padded("."))];
    for i := 0 to NR_CONSOLES
      invariant |sect| == PER_SECTOR
      invariant forall k | 0 <= k < PER_SECTOR :: sect[k] == if k < i + 1 then MkfsEntry(k) else ZERO_ENTRY
    {
      sect := sect[i + 1 := Entry(i + 2, Padded(TtyName(i)))];
    }
    ghost var blocks := dir.blocks;
    dir.blocks := dir.blocks[0 := sect];
    forall i | 0 <= i < DIR_SLOTS
      ensures dir.Slots()[i] == if i < PER_SECTOR then MkfsEntry(i) else SlotsOf(blocks)[i]
    {
      SlotNumber(dir.blocks, i, ZERO_ENTRY);
      SlotNumber(blocks, i, ZERO_ENTRY);
    }
  }

  const NR_INODE_SECTS := 256

  /** get_inode(ROOT_DEV, ROOT_INODE) into the empty table. */
  method HoldRoot(inodes: InodeTable, n1st: nat)
    requires inodes.Valid() && |inodes.Disk()| > 0 && inodes.Disk()[ROOT_INODE - 1] == MkfsInode(ROOT_INODE, n1st)
    requires forall s | 0 <= s < NR_INODE :: inodes.table[s] == Inode(0, 0, BLANK)
    modifies inodes.table
    ensures forall s | 0 <= s < NR_INODE ::
              inodes.table[s] == if s == ROOT_SLOT then Inode(ROOT_INODE, 1, MkfsInode(ROOT_INODE, n1st))
                  else Inode(0, 0, BLANK)
  {
    ghost var t := inodes.table[..];
    NothingCached(t);
    var slot := inodes.GetInode(ROOT_INODE);
    assert inodes.table[..] == t[ROOT_SLOT := Inode(ROOT_INODE, 1, MkfsInode(ROOT_INODE, n1st))];
    forall s | 0 <= s < NR_INODE
      ensures inodes.table[s] == if s == ROOT_SLOT then Inode(ROOT_INODE, 1, MkfsInode(ROOT_INODE, n1st))
              else Inode(0, 0, BLANK)
    {
      assert inodes.table[s] == inodes.table[..][s];
    }
  }

  lemma NothingCached(t: seq<Inode>)
    requires |t| == NR_INODE && forall s | 0 <= s < |t| :: t[s] == Inode(0, 0, BLANK)
    ensures LiveSlot(t, ROOT_INODE, 0) == -1 && SlotFor(t, ROOT_INODE) == ROOT_SLOT
  {
  }

  /** mkfs and init_fs on a disk of nrSmapSects sectors of sector map: the server stands at the beginning of a run
      exactly when the rest of the directory's extent is zero. */
  method Start(nrProcs: nat, maps: SectorDisk, inodes: InodeTable, dir: RootDirectory, data: FileIo.DataDisk,
      nrSmapSects: nat)
    returns (server: Server)
    requires maps.Valid() && nrSmapSects > 0 && SMAP_BLK0 + nrSmapSects < |maps.disk| && data.Valid()
    requires inodes.Valid() && |inodes.sects| == NR_INODE_SECTS
    requires forall s | 0 <= s < NR_INODE :: inodes.table[s] == Inode(0, 0, BLANK)
    requires dir.Valid() && |dir.blocks| == DIR_SLOTS / PER_SECTOR
    modifies maps, maps.fsbuf, inodes, inodes.table, dir
    ensures server.Valid() && |server.State().t.filp| == nrProcs
    ensures server.n1stSect == SMAP_BLK0 + nrSmapSects + NR_INODE_SECTS
    ensures Initial(server.State(), server.n1stSect) <==> RestZero(old(dir.Slots()))
  {
    ghost var slots := dir.Slots();
    var n1st := SMAP_BLK0 + nrSmapSects + NR_INODE_SECTS;
    var maker := new Maker(maps);
    maker.WriteMaps(nrSmapSects);
    MkfsInodes(inodes, n1st);
    MkfsRoot(dir);
    HoldRoot(inodes, n1st);
    server := new Server(nrProcs, inodes, maps, dir, data, nrSmapSects, n1st);
    MkfsSlots(slots, dir.Slots());
  }

  lemma MkfsSlots(slots: seq<Entry>, slots': seq<Entry>)
    requires |slots'| == |slots| == DIR_SLOTS
    requires forall i | 0 <= i < PER_SECTOR :: slots'[i] == MkfsEntry(i)
    requires forall i | PER_SECTOR <= i < DIR_SLOTS :: slots'[i] == slots[i]
    ensures RestZero(slots) <==> forall i | 0 <= i < DIR_SLOTS :: slots'[i] == MkfsEntry(i)
  {
    if forall i | 0 <= i < DIR_SLOTS :: slots'[i] == MkfsEntry(i) {
      forall i | PER_SECTOR <= i < DIR_SLOTS ensures slots[i] == ZERO_ENTRY {
        assert slots'[i] == MkfsEntry(i);
      }
    }
  }

  lemma FullByteBits()
    ensures forall t: nat | t < 8 :: Bit(0xff, t)
  {
    FullByte(0xff);
  }
}
