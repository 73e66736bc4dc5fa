/**
 The inode cache `inode_table[]` in front of the inode sectors: get_inode, put_inode, sync_inode.
 A sector holds sixteen inodes; the cache is written through.
 */
module InodeCache {

  const INODES_PER_SECTOR := 16
  const NR_INODE := 64

  /** The part of an inode that is on disk. */
  datatype Fields = Fields(mode: int, size: nat, start: nat, nrSects: nat)

  /** A slot of inode_table[]; it is in use while cnt > 0. */
  datatype Inode = Inode(num: nat, cnt: nat, f: Fields)

  const BLANK := Fields(0, 0, 0, 0)

  // ---------------------------------------------------------------- looking up

  /** The slot from i on that holds inode num, or -1. */
  function LiveSlot(t: seq<Inode>, num: nat, i: nat): (s: int)
    requires i <= |t|
    ensures s == -1 || (i <= s < |t| && t[s].cnt > 0 && t[s].num == num)
    ensures s == -1 ==> forall k | i <= k < |t| :: t[k].cnt == 0 || t[k].num != num
    decreases |t| - i
  {
    if i == |t| then -1 else if t[i].cnt > 0 && t[i].num == num then i else LiveSlot(t, num, i + 1)
  }

  /** The first slot from i on that is not in use, or -1. */
  function FreeSlot(t: seq<Inode>, i: nat): (s: int)
    requires i <= |t|
    ensures s == -1 || (i <= s < |t| && t[s].cnt == 0)
    ensures s == -1 ==> forall k | i <= k < |t| :: t[k].cnt > 0
    decreases |t| - i
  {
    if i == |t| then -1 else if t[i].cnt == 0 then i else FreeSlot(t, i + 1)
  }

  /** The slot get_inode hands out for inode num. */
  function SlotFor(t: seq<Inode>, num: nat): (s: int)
    ensures -1 <= s < |t|
  {
    if LiveSlot(t, num, 0) >= 0 then LiveSlot(t, num, 0) else FreeSlot(t, 0)
  }

  /** The cache after get_inode: one more reference, loaded from the disk if it was not there. */
  function Gotten(t: seq<Inode>, disk: seq<Fields>, num: nat): (t': seq<Inode>)
    requires 0 < num <= |disk| && SlotFor(t, num) >= 0
    ensures |t'| == |t|
  {
    var s := SlotFor(t, num);
    if LiveSlot(t, num, 0) >= 0 then t[s := t[s].(cnt := t[s].cnt + 1)] else t[s := Inode(num, 1, disk[num - 1])]
  }

  // ---------------------------------------------------------------- the cache agrees with the disk

  ghost predicate Agrees(t: seq<Inode>, disk: seq<Fields>) {
    && (forall s | 0 <= s < |t| && t[s].cnt > 0 :: 0 < t[s].num <= |disk| && t[s].f == disk[t[s].num - 1])
    && (forall s, s' | 0 <= s < s' < |t| && t[s].cnt > 0 && t[s'].cnt > 0 :: t[s].num != t[s'].num)
  }

  lemma LoadAgrees(t: seq<Inode>, disk: seq<Fields>, num: nat, s: nat)
    requires Agrees(t, disk) && 0 < num <= |disk| && s < |t|
    requires forall k | 0 <= k < |t| :: t[k].cnt == 0 || t[k].num != num
    ensures Agrees(t[s := Inode(num, 1, disk[num - 1])], disk)
  {
  }

  lemma MoreAgrees(t: seq<Inode>, disk: seq<Fields>, s: nat)
    requires Agrees(t, disk) && s < |t| && t[s].cnt > 0
    ensures Agrees(t[s := t[s].(cnt := t[s].cnt + 1)], disk)
  {
  }

  lemma GetAgrees(t: seq<Inode>, disk: seq<Fields>, num: nat)
    requires Agrees(t, disk) && 0 < num <= |disk| && SlotFor(t, num) >= 0
    ensures Agrees(Gotten(t, disk, num), disk)
    ensures var s := SlotFor(t, num); Gotten(t, disk, num)[s].num == num && Gotten(t, disk, num)[s].cnt > 0
  {
    var s := SlotFor(t, num);
    if LiveSlot(t, num, 0) >= 0 { MoreAgrees(t, disk, s); } else { LoadAgrees(t, disk, num, s); }
  }

  lemma PutAgrees(t: seq<Inode>, disk: seq<Fields>, s: nat)
    requires Agrees(t, disk) && s < |t| && t[s].cnt > 0
    ensures Agrees(t[s := t[s].(cnt := t[s].cnt - 1)], disk)
  {
  }

  /** A change to a cached inode followed by sync_inode. */
  lemma SyncAgrees(t: seq<Inode>, disk: seq<Fields>, s: nat, f: Fields)
    requires Agrees(t, disk) && s < |t| && t[s].cnt > 0
    ensures Agrees(t[s := t[s].(f := f)], disk[t[s].num - 1 := f])
  {
  }

  /** What sync_inode wrote is what a get_inode that finds nothing cached reads back. */
  lemma SyncThenGet(t: seq<Inode>, disk: seq<Fields>, s: nat, t': seq<Inode>)
    requires s < |t| && 0 < t[s].num <= |disk|
    requires LiveSlot(t', t[s].num, 0) < 0 && SlotFor(t', t[s].num) >= 0
    ensures var disk' := disk[t[s].num - 1 := t[s].f]; var got := SlotFor(t', t[s].num);
            Gotten(t', disk', t[s].num)[got] == Inode(t[s].num, 1, t[s].f)
  {
  }

  // ---------------------------------------------------------------- the code

  ghost predicate Sectors(sects: seq<seq<Fields>>) {
    forall s | 0 <= s < |sects| :: |sects[s]| == INODES_PER_SECTOR
  }

  /** All the inodes of the inode sectors, number 1 first. */
  ghost function DiskOf(sects: seq<seq<Fields>>): seq<Fields>
    requires Sectors(sects)
  {
    seq(INODES_PER_SECTOR * |sects|, k requires 0 <= k < INODES_PER_SECTOR * |sects| =>
      sects[k / INODES_PER_SECTOR][k % INODES_PER_SECTOR])
  }

  lemma RecordAt(sects: seq<seq<Fields>>, num: nat, f: Fields)
    requires Sectors(sects) && 0 < num <= INODES_PER_SECTOR * |sects|
    ensures var b, o := (num - 1) / INODES_PER_SECTOR, (num - 1) % INODES_PER_SECTOR;
            && b < |sects| && o < |sects[b]| && DiskOf(sects)[num - 1] == sects[b][o]
            && Sectors(sects[b := sects[b][o := f]])
            && DiskOf(sects[b := sects[b][o := f]]) == DiskOf(sects)[num - 1 := f]
  {
    var b, o := (num - 1) / INODES_PER_SECTOR, (num - 1) % INODES_PER_SECTOR;
    var d, d' := DiskOf(sects)[num - 1 := f], DiskOf(sects[b := sects[b][o := f]]);
    forall k | 0 <= k < |d| ensures d'[k] == d[k] {
      if k / INODES_PER_SECTOR == b && k % INODES_PER_SECTOR == o { assert k == num - 1; }
    }
  }

  class InodeTable {
    const table: array<Inode>
    /** The inode sectors of the disk. */
    var sects: seq<seq<Fields>>

    constructor (image: seq<seq<Fields>>)
      requires Sectors(image)
      ensures fresh(table) && Valid() && sects == image
      ensures forall s | 0 <= s < NR_INODE :: table[s] == Inode(0, 0, BLANK)
    {
      sects := image;
      table := new Inode[NR_INODE](_ => Inode(0, 0, BLANK));
    }

    ghost predicate Valid()
      reads this
    {
      table.Length == NR_INODE && Sectors(sects)
    }

    ghost function Disk(): seq<Fields>
      reads this
      requires Valid()
    {
      DiskOf(sects)
    }

    /** The slot for inode num, -1 for the number 0; the caller has seen to it that a slot is free if one is needed. */
    method GetInode(num: nat) returns (slot: int)
      requires Valid() && num <= |Disk()| && (num > 0 ==> SlotFor(table[..], num) >= 0)
      modifies table
      ensures num == 0 ==> slot == -1 && table[..] == old(table[..])
      ensures num > 0 ==> slot == SlotFor(old(table[..]), num) && table[..] == Gotten(old(table[..]), Disk(), num)
    {
      if num == 0 {
        return -1;
      }
      var q := -1;
      ghost var t := table[..];
      for p := 0 to table.Length
        invariant table[..] == t && LiveSlot(t, num, 0) == LiveSlot(t, num, p)
        invariant if q >= 0 then FreeSlot(t, 0) == q else FreeSlot(t, 0) == FreeSlot(t, p)
      {
        if table[p].cnt > 0 {
          if table[p].num == num {
            table[p] := table[p].(cnt := table[p].cnt + 1);
            return p;
          }
        } else if q < 0 {
          q := p;
        }
      }
      var blkNr, off := (num - 1) / INODES_PER_SECTOR, (num - 1) % INODES_PER_SECTOR;
      RecordAt(sects, num, BLANK);
      table[q] := Inode(num, 1, sects[blkNr][off]);
      return q;
    }

    method PutInode(slot: nat)
      requires Valid() && slot < table.Length && table[slot].cnt > 0
      modifies table
      ensures table[..] == old(table[..])[slot := old(table[slot]).(cnt := old(table[slot]).cnt - 1)]
    {
      table[slot] := table[slot].(cnt := table[slot].cnt - 1);
    }

    /** Reads the sector of the inode, replaces the one record, writes the sector back. */
    method SyncInode(slot: nat)
      requires Valid() && slot < table.Length && 0 < table[slot].num <= |Disk()|
      modifies this`sects
      ensures Valid() && |sects| == |old(sects)|
      ensures Disk() == old(Disk())[table[slot].num - 1 := table[slot].f]
    {
      var blkNr, off := (table[slot].num - 1) / INODES_PER_SECTOR, (table[slot].num - 1) % INODES_PER_SECTOR;
      RecordAt(sects, table[slot].num, table[slot].f);
      var sect := sects[blkNr];
      sect := sect[off := table[slot].f];
      sects := sects[blkNr := sect];
    }
  }
}
