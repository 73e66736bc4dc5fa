/**
 The inode map and the sector map on the disk: allocation scans and frees over 512-byte sectors through
 the one-sector buffer, proved to be operations on the run of bits the sectors hold.
 */
module SectorMap {
  import opened Base
  import opened Bits

  const SECTOR_BITS := 8 * SECTOR_SIZE

  type Sector = s: seq<byte> | |s| == SECTOR_SIZE witness seq(SECTOR_SIZE, _ => 0)

  /** The bits held by the n sectors from `base` on. */
  function MapOf(disk: seq<Sector>, base: nat, n: nat): seq<bool>
    requires base + n <= |disk|
  {
    seq(SECTOR_BITS * n, b requires 0 <= b < SECTOR_BITS * n => BitOf(disk[base + b / SECTOR_BITS], b % SECTOR_BITS))
  }

  /** Nothing outside the n sectors from `base` on changes. */
  ghost predicate OnlyMap(disk: seq<Sector>, disk': seq<Sector>, base: nat, n: nat) {
    |disk'| == |disk| && forall s | 0 <= s < |disk| && !(base <= s < base + n) :: disk'[s] == disk[s]
  }

  /** What is left to allocate at position p of a run of n bits that starts at f. */
  function Left(f: int, n: nat, p: int): nat {
    if p <= f then n else if p >= f + n then 0 else f + n - p
  }

  /** The local `free_sect_nr` at position p of the i-th sector: 0 until the run is met. */
  function FreeAt(f: int, i: nat, n1stSect: nat, p: int): int {
    if p <= f then 0 else SECTOR_BITS * i + f - 1 + n1stSect
  }

  /** How the bits s of one sector look to a scan whose run begins at f: all set before it, clear at it. */
  ghost predicate Begins(s: seq<bool>, f: int) {
    && (forall r | 0 <= r < |s| && r < f :: s[r])
    && (0 <= f < |s| ==> !s[f])
  }

  /** The bits lo..hi of the run f..f+n are clear. */
  ghost predicate Clear(s: seq<bool>, f: int, n: nat, lo: int, hi: int) {
    forall r | 0 <= r < |s| && f <= r < f + n && lo <= r < hi :: !s[r]
  }

  /** `rw_sector` moves whole sectors between the disk and `fsbuf`. */
  class SectorDisk {
    var disk: seq<Sector>
    const fsbuf: array<byte>

    constructor (image: seq<Sector>)
      ensures fresh(fsbuf) && Valid() && disk == image
    {
      disk := image;
      fsbuf := new byte[FSBUF_SIZE];
    }

    predicate Valid() {
      fsbuf.Length == FSBUF_SIZE
    }

    ghost function Buffer(): Sector
      reads fsbuf
      requires Valid()
    {
      fsbuf[..SECTOR_SIZE]
    }

    method RdSect(s: nat)
      requires Valid() && s < |disk|
      modifies fsbuf
      ensures Buffer() == disk[s]
    {
      for i := 0 to SECTOR_SIZE
        invariant forall k | 0 <= k < i :: fsbuf[k] == disk[s][k]
      {
        fsbuf[i] := disk[s][i];
      }
    }

    method WrSect(s: nat)
      requires Valid() && s < |disk|
      modifies this`disk
      ensures disk == old(disk)[s := Buffer()]
    {
      disk := disk[s := fsbuf[..SECTOR_SIZE]];
    }

    // -------------------------------------------------------------- bits of the buffer

    ghost function Held(): (s: seq<bool>)
      reads fsbuf
      requires Valid()
      ensures |s| == SECTOR_BITS
    {
      BitsOf(Buffer())
    }

    method TestBit(j: nat, k: nat) returns (on: bool)
      requires Valid() && j < SECTOR_SIZE && k < 8
      ensures on == Held()[8 * j + k]
    {
      assert (8 * j + k) / 8 == j && (8 * j + k) % 8 == k;
      on := (fsbuf[j] >> k) & 1 == 1;
    }

    method SetBitAt(j: nat, k: nat)
      requires Valid() && j < SECTOR_SIZE && k < 8
      modifies fsbuf
      ensures Held() == old(Held())[8 * j + k := true]
    {
      ghost var before := Buffer();
      SetBitIn(before, j, k);
      fsbuf[j] := fsbuf[j] | (1 << k);
      assert Buffer() == before[j := before[j] | (1 << k)];
    }

    method IsFull(j: nat) returns (full: bool)
      requires Valid() && j < SECTOR_SIZE
      ensures full <==> AllSet(Held(), 8 * j, 8 * j + 8)
    {
      FullByteIn(Buffer(), j);
      full := fsbuf[j] == 0xff;
    }

    // -------------------------------------------------------------- alloc_smap_bit

    /** The inner loop: sets bits of byte j from k on, until the byte ends or nothing is left to allocate.  `ok` is
        false when its assertion fails, that a bit is clear. */
    method SetBits(j: nat, k0: nat, left0: nat, ghost s: seq<bool>, ghost f: int, ghost n: nat)
      returns (left: nat, ok: bool)
      requires Valid() && j < SECTOR_SIZE && k0 < 8 && |s| == SECTOR_BITS
      requires f <= 8 * j + k0 < f + n && left0 == Left(f, n, 8 * j + k0)
      requires Held() == Fill(s, f, 8 * j + k0, true)
      modifies fsbuf
      ensures ok <==> Clear(s, f, n, 8 * j + k0, 8 * j + 8)
      ensures ok ==> left == Left(f, n, 8 * j + 8) && Held() == Fill(s, f, Min(f + n, 8 * j + 8), true)
    {
      var k := k0;
      left, ok := left0, true;
      while k < 8
        invariant k0 <= k <= 8 && left == Left(f, n, 8 * j + k) > 0 && f <= 8 * j + k && ok
        invariant Held() == Fill(s, f, 8 * j + k, true) && Clear(s, f, n, 8 * j + k0, 8 * j + k)
      {
        ghost var q := 8 * j + k;
        var on := TestBit(j, k);
        assert on == s[q];
        if on {
          return left, false;
        }
        SetBitAt(j, k);
        assert Held() == Fill(s, f, q + 1, true);
        left := left - 1;
        if left == 0 {
          break;
        }
        k := k + 1;
      }
    }

    /** The scan for the first clear bit of a byte that is not full. */
    method LowestClear(j: nat, ghost c: nat) returns (k: nat)
      requires Valid() && j < SECTOR_SIZE && c < 8 && !Held()[8 * j + c]
      requires forall t: nat | t < 8 * j + c :: Held()[t]
      ensures k == c
    {
      k := 0;
      var on := TestBit(j, 0);
      while on
        invariant k <= c && on == Held()[8 * j + k]
        decreases c - k
      {
        k := k + 1;
        on := TestBit(j, k);
      }
    }

    /** One byte of the middle loop, in the i-th sector of the map. */
    method FillByte(i: nat, j: nat, n1stSect: nat, free0: nat, left0: nat, ghost s: seq<bool>, ghost f: int,
        ghost n: nat)
      returns (free: nat, left: nat, ok: bool)
      requires Valid() && j < SECTOR_SIZE && |s| == SECTOR_BITS && Begins(s, f)
      requires n1stSect >= 2 && SECTOR_BITS * i + f >= 0
      requires left0 == Left(f, n, 8 * j) > 0 && free0 == FreeAt(f, i, n1stSect, 8 * j)
      requires Held() == Fill(s, f, Min(f + n, 8 * j), true)
      modifies fsbuf
      ensures ok <==> Clear(s, f, n, 8 * j, 8 * j + 8)
      ensures ok ==> left == Left(f, n, 8 * j + 8) && free == FreeAt(f, i, n1stSect, 8 * j + 8)
      ensures ok ==> Held() == Fill(s, f, Min(f + n, 8 * j + 8), true)
    {
      free, left := free0, left0;
      var k := 0;
      if free == 0 {
        assert Held() == s;
        var full := IsFull(j);
        assert f < 8 * j + 8 ==> !Held()[f];
        if full {
          return free, left, true;
        }
        assert f < 8 * j + 8;
        k := LowestClear(j, f - 8 * j);
        free := (i * SECTOR_SIZE + j) * 8 + k - 1 + n1stSect;
      }
      left, ok := SetBits(j, k, left, s, f, n);
    }

    /** The middle loop: allocates in the sector held by the buffer, the i-th of the map. */
    method FillBuffer(i: nat, n1stSect: nat, free0: nat, left0: nat, ghost s: seq<bool>, ghost f: int, ghost n: nat)
      returns (free: nat, left: nat, ok: bool)
      requires Valid() && s == Held() && Begins(s, f) && n1stSect >= 2 && SECTOR_BITS * i + f >= 0
      requires left0 == Left(f, n, 0) > 0 && free0 == FreeAt(f, i, n1stSect, 0)
      modifies fsbuf
      ensures ok <==> Clear(s, f, n, 0, SECTOR_BITS)
      ensures ok ==> left == Left(f, n, SECTOR_BITS) && free == FreeAt(f, i, n1stSect, SECTOR_BITS)
      ensures ok ==> Held() == Fill(s, f, Min(f + n, SECTOR_BITS), true)
    {
      free, left, ok := free0, left0, true;
      var j := 0;
      while j < SECTOR_SIZE && left > 0
        invariant 0 <= j <= SECTOR_SIZE && left == Left(f, n, 8 * j) && ok
        invariant free == FreeAt(f, i, n1stSect, 8 * j) && Clear(s, f, n, 0, 8 * j)
        invariant Held() == Fill(s, f, Min(f + n, 8 * j), true)
      {
        free, left, ok := FillByte(i, j, n1stSect, free, left, s, f, n);
        if !ok {
          return;
        }
        j := j + 1;
      }
    }

    /** One sector of the outer loop; m is the map before the allocation. */
    method AllocInSector(base: nat, nr: nat, i: nat, n1stSect: nat, free0: nat, left0: nat,
                         ghost m: seq<bool>, ghost f: nat, ghost n: nat)
      returns (free: nat, left: nat, ok: bool)
      requires Valid() && base + nr <= |disk| && i < nr && n1stSect >= 2 && |m| == SECTOR_BITS * nr && Gap(m, f)
      requires left0 == Left(f, n, SECTOR_BITS * i) > 0 && free0 == FreeAt(f, 0, n1stSect, SECTOR_BITS * i)
      requires MapOf(disk, base, nr) == Fill(m, f, Min(f + n, SECTOR_BITS * i), true)
      modifies this`disk, fsbuf
      ensures OnlyMap(old(disk), disk, base, nr)
      ensures ok <==> Clear(m, f, n, SECTOR_BITS * i, SECTOR_BITS * (i + 1))
      ensures ok ==> left == Left(f, n, SECTOR_BITS * (i + 1)) && free == FreeAt(f, 0, n1stSect, SECTOR_BITS * (i + 1))
      ensures ok ==> MapOf(disk, base, nr) == Fill(m, f, Min(f + n, SECTOR_BITS * (i + 1)), true)
    {
      ghost var w := MapOf(disk, base, nr);
      free, left, ok := ScanSector(base, nr, i, n1stSect, free0, left0, m, f, n, w);
      if ok && free != 0 {
        MapWrite(disk, base, nr, i, Buffer());
        FillRun(m, f, n, SECTOR_BITS * i, SECTOR_BITS * (i + 1), w);
        WrSect(base + i);
      }
    }

    /** The i-th sector read and allocated in, not yet written back; w is the map so far. */
    method ScanSector(base: nat, nr: nat, i: nat, n1stSect: nat, free0: nat, left0: nat,
                      ghost m: seq<bool>, ghost f: nat, ghost n: nat, ghost w: seq<bool>)
      returns (free: nat, left: nat, ok: bool)
      requires Valid() && base + nr <= |disk| && i < nr && n1stSect >= 2 && |m| == SECTOR_BITS * nr && Gap(m, f)
      requires left0 == Left(f, n, SECTOR_BITS * i) > 0 && free0 == FreeAt(f, 0, n1stSect, SECTOR_BITS * i)
      requires w == MapOf(disk, base, nr) == Fill(m, f, Min(f + n, SECTOR_BITS * i), true)
      modifies fsbuf
      ensures ok <==> Clear(m, f, n, SECTOR_BITS * i, SECTOR_BITS * (i + 1))
      ensures ok ==> left == Left(f, n, SECTOR_BITS * (i + 1)) && free == FreeAt(f, 0, n1stSect, SECTOR_BITS * (i + 1))
      ensures ok ==> Held() == Fill(w[SECTOR_BITS * i..SECTOR_BITS * (i + 1)], f - SECTOR_BITS * i,
                                    Min(f - SECTOR_BITS * i + n, SECTOR_BITS), true)
    {
      RdSect(base + i);
      SectorOfMap(disk, base, nr, i);
      FillStep(m, f, n, i, w);
      free, left, ok := FillBuffer(i, n1stSect, free0, left0, Held(), f - SECTOR_BITS * i, n);
    }

    /** The outer loop over the sectors of the map.  It takes the n bits from the first clear bit on; `ok` is false
        when one of the two assertions fails, that each of these bits is clear, and that there are n of them. */
    method AllocSmapBit(base: nat, nrSmapSects: nat, n1stSect: nat, n: nat) returns (freeSectNr: nat, ok: bool)
      requires Valid() && base + nrSmapSects <= |disk| && n1stSect >= 2 && n > 0
      modifies this`disk, fsbuf
      ensures OnlyMap(old(disk), disk, base, nrSmapSects)
      ensures var m := old(MapOf(disk, base, nrSmapSects)); var f := FirstClear(m, 0);
              && (ok <==> AllClear(m, f, f + n))
              && (ok ==> freeSectNr == f - 1 + n1stSect && MapOf(disk, base, nrSmapSects) == Fill(m, f, f + n, true))
    {
      ghost var m := MapOf(disk, base, nrSmapSects);
      ghost var f := FirstClear(m, 0);
      assert Fill(m, f, Min(f + n, 0), true) == m;
      freeSectNr, ok := AllocSectors(base, nrSmapSects, n1stSect, n, m, f);
    }

    /** Its loop, on a map m whose first clear bit is f. */
    method AllocSectors(base: nat, nr: nat, n1stSect: nat, n: nat, ghost m: seq<bool>, ghost f: nat)
      returns (freeSectNr: nat, ok: bool)
      requires Valid() && base + nr <= |disk| && n1stSect >= 2 && n > 0 && |m| == SECTOR_BITS * nr && Gap(m, f)
      requires MapOf(disk, base, nr) == Fill(m, f, Min(f + n, 0), true)
      modifies this`disk, fsbuf
      ensures OnlyMap(old(disk), disk, base, nr)
      ensures ok <==> f + n <= |m| && Clear(m, f, n, 0, |m|)
      ensures ok ==> freeSectNr == f - 1 + n1stSect && MapOf(disk, base, nr) == Fill(m, f, f + n, true)
    {
      freeSectNr, ok := 0, true;
      var left := n;
      var i := 0;
      while i < nr
        invariant 0 <= i <= nr && left == Left(f, n, SECTOR_BITS * i) && left > 0 && ok
        invariant freeSectNr == FreeAt(f, 0, n1stSect, SECTOR_BITS * i) && Clear(m, f, n, 0, SECTOR_BITS * i)
        invariant OnlyMap(old(disk), disk, base, nr)
        invariant MapOf(disk, base, nr) == Fill(m, f, Min(f + n, SECTOR_BITS * i), true)
      {
        freeSectNr, left, ok := AllocInSector(base, nr, i, n1stSect, freeSectNr, left, m, f, n);
        ClearSoFar(m, f, n, SECTOR_BITS * i, SECTOR_BITS * (i + 1));
        if !ok {
          return;
        }
        if left == 0 {
          break;
        }
        i := i + 1;
      }
      ok := left == 0;
    }

    // -------------------------------------------------------------- alloc_imap_bit

    /** Scans the first sector of the inode map only; 0 when that sector is full. */
    method AllocImapBit(base: nat, nrImapSects: nat) returns (inodeNr: nat)
      requires Valid() && 0 < nrImapSects && base + nrImapSects <= |disk|
      modifies this`disk, fsbuf
      ensures OnlyMap(old(disk), disk, base, 1)
      ensures var m := old(MapOf(disk, base, 1)); var f := FirstClear(m, 0);
              if f < |m| then inodeNr == f && MapOf(disk, base, 1) == Fill(m, f, f + 1, true)
              else inodeNr == 0 && MapOf(disk, base, 1) == m
    {
      RdSect(base);
      OneSectorMap(disk, base);
      inodeNr := ScanImap(base, FirstClear(Held(), 0));
    }

    method ScanImap(base: nat, ghost f: nat) returns (inodeNr: nat)
      requires Valid() && base < |disk| && Held() == MapOf(disk, base, 1) && Gap(Held(), f)
      modifies this`disk, fsbuf
      ensures OnlyMap(old(disk), disk, base, 1)
      ensures inodeNr == if f < SECTOR_BITS then f else 0
      ensures MapOf(disk, base, 1) == Fill(old(Held()), f, f + 1, true)
    {
      ghost var m := Held();
      inodeNr := 0;
      var j := 0;
      while j < SECTOR_SIZE
        invariant 0 <= j <= SECTOR_SIZE && Held() == m && f >= 8 * j && disk == old(disk) && inodeNr == 0
      {
        var full := IsFull(j);
        assert f < 8 * j + 8 ==> !Held()[f];
        if full {
          j := j + 1;
          continue;
        }
        inodeNr := TakeImapBit(base, j, f);
        break;
      }
    }

    method TakeImapBit(base: nat, j: nat, ghost f: nat) returns (inodeNr: nat)
      requires Valid() && base < |disk| && Held() == MapOf(disk, base, 1) && Gap(Held(), f)
      requires j < SECTOR_SIZE && 8 * j <= f < 8 * j + 8
      modifies this`disk, fsbuf
      ensures OnlyMap(old(disk), disk, base, 1) && inodeNr == f
      ensures MapOf(disk, base, 1) == Fill(old(Held()), f, f + 1, true)
    {
      var k := LowestClear(j, f - 8 * j);
      inodeNr := j * 8 + k;
      SetBitAt(j, k);
      WrSect(base);
      OneSectorMap(disk, base);
    }

    // -------------------------------------------------------------- do_unlink: freeing bits

    method ClearBitAt(j: nat, k: nat)
      requires Valid() && j < SECTOR_SIZE && k < 8
      modifies fsbuf
      ensures Held() == old(Held())[8 * j + k := false]
    {
      ghost var before := Buffer();
      ClearBitIn(before, j, k);
      fsbuf[j] := fsbuf[j] & !(1 << k);
      assert Buffer() == before[j := before[j] & !(1 << k)];
    }

    /** Clears the bit of a freed inode in the inode map, which must be set. */
    method FreeImapBit(base: nat, inodeNr: nat)
      requires Valid() && base < |disk| && inodeNr < SECTOR_BITS && MapOf(disk, base, 1)[inodeNr]
      modifies this`disk, fsbuf
      ensures OnlyMap(old(disk), disk, base, 1)
      ensures MapOf(disk, base, 1) == Fill(old(MapOf(disk, base, 1)), inodeNr, inodeNr + 1, false)
    {
      RdSect(base);
      OneSectorMap(disk, base);
      Position(inodeNr);
      var on := TestBit(inodeNr / 8, inodeNr % 8);
      assert on;
      ClearBitAt(inodeNr / 8, inodeNr % 8);
      WrSect(base);
      OneSectorMap(disk, base);
    }

    /** The disk as it will be once the buffer is written back to sector s. */
    ghost function Pending(s: nat): seq<Sector>
      reads this, fsbuf
      requires Valid() && s < |disk|
    {
      disk[s := Buffer()]
    }

    /** Bits bit..q of the map `m` of disk0 are freed, the last of them perhaps in the buffer for sector s only. */
    ghost predicate Freeing(disk0: seq<Sector>, base: nat, nr: nat, s: nat, bit: nat, q: nat)
      reads this, fsbuf
      requires Valid() && base + nr <= |disk0|
    {
      && base <= s < base + nr && |disk| == |disk0| && OnlyMap(disk0, Pending(s), base, nr)
      && MapOf(Pending(s), base, nr) == Fill(MapOf(disk0, base, nr), bit, q, false)
    }

    /** Writes the buffer back and takes the next sector into it. */
    method NextSector(s: nat) returns (s': nat)
      requires Valid() && s + 1 < |disk|
      modifies this`disk, fsbuf
      ensures s' == s + 1 && |disk| == old(|disk|) && Pending(s') == old(Pending(s))
    {
      WrSect(s);
      s' := s + 1;
      RdSect(s');
      assert Pending(s') == disk;
    }

    /** The c bits from q on, in the buffer for their sector, are still set. */
    lemma StillSet(base: nat, nr: nat, s: nat, disk0: seq<Sector>, bit: nat, q: nat, c: nat)
      requires Valid() && base + nr <= |disk0| && Freeing(disk0, base, nr, s, bit, q) && bit <= q
      requires base + q / SECTOR_BITS == s && q % SECTOR_BITS + c <= SECTOR_BITS
      requires AllSet(MapOf(disk0, base, nr), q, q + c)
      ensures AllSet(Held(), q % SECTOR_BITS, q % SECTOR_BITS + c)
    {
      Position(q);
      HeldBits(base, nr, s);
      StillSetIn(MapOf(disk0, base, nr), bit, q, c, s - base);
    }

    /** Clears bit q, which must be set: byte `j` of the buffer, bit k. */
    method FreeBit(j: nat, k: nat, ghost disk0: seq<Sector>, ghost base: nat, ghost nr: nat, ghost s: nat,
        ghost bit: nat, ghost q: nat)
      requires Valid() && base + nr <= |disk0| && Freeing(disk0, base, nr, s, bit, q) && bit <= q
      requires base + q / SECTOR_BITS == s && j == q / 8 % SECTOR_SIZE && k == q % 8
      requires AllSet(MapOf(disk0, base, nr), q, q + 1)
      modifies fsbuf
      ensures Freeing(disk0, base, nr, s, bit, q + 1)
    {
      Position(q);
      StillSet(base, nr, s, disk0, bit, q, 1);
      ghost var b := Buffer();
      var on := TestBit(j, k);
      assert on;
      ClearBitAt(j, k);
      FreeMore(disk, base, nr, s, b, Buffer(), MapOf(disk0, base, nr), bit, q, 1);
    }

    /** Clears a whole byte, which must be full. */
    method FreeByte(i: nat, ghost disk0: seq<Sector>, ghost base: nat, ghost nr: nat, ghost s: nat, ghost bit: nat,
        ghost q: nat)
      requires Valid() && base + nr <= |disk0| && Freeing(disk0, base, nr, s, bit, q) && bit <= q
      requires base + q / SECTOR_BITS == s && i == q / 8 % SECTOR_SIZE && q % 8 == 0
      requires AllSet(MapOf(disk0, base, nr), q, q + 8)
      modifies fsbuf
      ensures Freeing(disk0, base, nr, s, bit, q + 8)
    {
      Position(q);
      StillSet(base, nr, s, disk0, bit, q, 8);
      ghost var b := Buffer();
      var full := IsFull(i);
      assert full;
      ClearByteIn(b, i);
      fsbuf[i] := 0;
      assert Buffer() == b[i := 0];
      FreeMore(disk, base, nr, s, b, Buffer(), MapOf(disk0, base, nr), bit, q, 8);
    }

    /** Clears the low n bits of a byte, which must be set. */
    method FreeLow(i: nat, n: nat, ghost disk0: seq<Sector>, ghost base: nat, ghost nr: nat, ghost s: nat,
        ghost bit: nat, ghost q: nat)
      requires Valid() && base + nr <= |disk0| && Freeing(disk0, base, nr, s, bit, q) && bit <= q
      requires i < SECTOR_SIZE && n < 8
      requires n > 0 ==> base + q / SECTOR_BITS == s && i == q / 8 % SECTOR_SIZE && q % 8 == 0
      requires AllSet(MapOf(disk0, base, nr), q, q + n)
      modifies fsbuf
      ensures Freeing(disk0, base, nr, s, bit, q + n)
    {
      ghost var b := Buffer();
      ClearLowIn(b, i, n);
      if n > 0 {
        Position(q);
        StillSet(base, nr, s, disk0, bit, q, n);
      }
      LowMaskIn(b, i, n);
      var mask: byte := !(0xff << n);
      assert fsbuf[i] & mask == mask;
      fsbuf[i] := fsbuf[i] & (0xff << n);
      assert Buffer() == b[i := b[i] & (0xff << n)];
      if n > 0 {
        FreeMore(disk, base, nr, s, b, Buffer(), MapOf(disk0, base, nr), bit, q, n);
      } else {
        BytesFromBits(Buffer(), b);
      }
    }

    /** The first byte: clears bits until the byte ends or none are left. */
    method FreeHead(bitIdx: nat, n: nat, ghost disk0: seq<Sector>, ghost base: nat, ghost nr: nat, ghost s: nat)
        returns (bitsLeft: nat)
      requires Valid() && base + nr <= |disk0| && AllSet(MapOf(disk0, base, nr), bitIdx, bitIdx + n)
      requires base + bitIdx / SECTOR_BITS == s && Freeing(disk0, base, nr, s, bitIdx, bitIdx)
      modifies fsbuf
      ensures bitsLeft == (if n < 8 - bitIdx % 8 then 0 else n - (8 - bitIdx % 8))
      ensures Freeing(disk0, base, nr, s, bitIdx, bitIdx + n - bitsLeft)
    {
      var byteIdx := bitIdx / 8;
      var i := bitIdx % 8;
      bitsLeft := n;
      while i < 8 && bitsLeft > 0
        invariant bitIdx % 8 <= i <= 8 && bitsLeft == n - (i - bitIdx % 8) >= 0
        invariant Freeing(disk0, base, nr, s, bitIdx, bitIdx + n - bitsLeft)
      {
        PositionInByte(bitIdx, n - bitsLeft);
        FreeBit(byteIdx % SECTOR_SIZE, i, disk0, base, nr, s, bitIdx, bitIdx + n - bitsLeft);
        i := i + 1;
        bitsLeft := bitsLeft - 1;
      }
    }

    /** The full bytes, going on to the next sectors as needed; i may be one past the end of the sector. */
    method FreeMiddle(s0: nat, i0: nat, left0: nat, byteCnt: int, ghost disk0: seq<Sector>, ghost base: nat,
        ghost nr: nat, ghost bit: nat, ghost q: nat)
      returns (s: nat, i: nat, bitsLeft: nat)
      requires Valid() && base + nr <= |disk0| && Freeing(disk0, base, nr, s0, bit, q) && bit <= q
      requires byteCnt > 0 ==> q % 8 == 0 && q / 8 == SECTOR_SIZE * (s0 - base) + i0
      requires i0 <= SECTOR_SIZE && 8 * byteCnt <= left0 && AllSet(MapOf(disk0, base, nr), q, q + left0)
      modifies this`disk, fsbuf
      ensures bitsLeft == left0 - 8 * Count(byteCnt) && Freeing(disk0, base, nr, s, bit, q + 8 * Count(byteCnt))
      ensures i <= SECTOR_SIZE && SECTOR_SIZE * (s - base) + i == SECTOR_SIZE * (s0 - base) + i0 + Count(byteCnt)
    {
      s, i, bitsLeft := s0, i0, left0;
      var k := 0;
      while k < byteCnt
        invariant 0 <= k <= Count(byteCnt) && i <= SECTOR_SIZE && bitsLeft == left0 - 8 * k
        invariant Freeing(disk0, base, nr, s, bit, q + 8 * k)
        invariant SECTOR_SIZE * (s - base) + i == SECTOR_SIZE * (s0 - base) + i0 + k
      {
        s, i := FreeNextByte(s, i, disk0, base, nr, bit, q + 8 * k, q / 8 + k);
        k, bitsLeft := k + 1, bitsLeft - 8;
      }
    }

    /** One full byte, the x-th of the map, in the next sector if this one is at its end. */
    method FreeNextByte(s0: nat, i0: nat, ghost disk0: seq<Sector>, ghost base: nat, ghost nr: nat, ghost bit: nat,
        ghost q: nat, ghost x: nat)
      returns (s: nat, i: nat)
      requires Valid() && base + nr <= |disk0| && Freeing(disk0, base, nr, s0, bit, q) && bit <= q && q == 8 * x
      requires i0 <= SECTOR_SIZE && x == SECTOR_SIZE * (s0 - base) + i0 && AllSet(MapOf(disk0, base, nr), q, q + 8)
      modifies this`disk, fsbuf
      ensures Freeing(disk0, base, nr, s, bit, q + 8) && i <= SECTOR_SIZE && SECTOR_SIZE * (s - base) + i == x + 1
    {
      s, i := s0, i0;
      if i == SECTOR_SIZE {
        i := 0;
        s := NextSector(s);
      }
      ByteAt(x, s - base, i);
      FreeByte(i, disk0, base, nr, s, bit, q);
      i := i + 1;
    }

    /** do_unlink's freeing of an extent: the first byte bit by bit, the full bytes, the low bits of the last byte.
        It may read and write back the sector behind the map. */
    method FreeSmapBits(base: nat, nrSmapSects: nat, bitIdx: nat, nrSects: nat)
      requires Valid() && base + nrSmapSects < |disk| && bitIdx < SECTOR_BITS * nrSmapSects
      requires AllSet(MapOf(disk, base, nrSmapSects), bitIdx, bitIdx + nrSects)
      modifies this`disk, fsbuf
      ensures OnlyMap(old(disk), disk, base, nrSmapSects)
      ensures MapOf(disk, base, nrSmapSects)
              == Fill(old(MapOf(disk, base, nrSmapSects)), bitIdx, bitIdx + nrSects, false)
    {
      ghost var disk0, nr := disk, nrSmapSects + 1;
      MapPrefix(disk, base, nrSmapSects);
      FreeParts(bitIdx, nrSects, disk0, base, nr);
      FreedAll(disk0, disk, base, nrSmapSects, bitIdx, bitIdx + nrSects);
    }

    /** The first byte, the full bytes and the last bits; the map has a sector to spare. */
    method FreeParts(bitIdx: nat, nrSects: nat, ghost disk0: seq<Sector>, base: nat, ghost nr: nat)
      requires Valid() && disk0 == disk && base + nr <= |disk| && nr > 0 && bitIdx < SECTOR_BITS * (nr - 1)
      requires bitIdx + nrSects <= SECTOR_BITS * (nr - 1) && AllSet(MapOf(disk, base, nr), bitIdx, bitIdx + nrSects)
      modifies this`disk, fsbuf
      ensures OnlyMap(disk0, disk, base, nr)
      ensures MapOf(disk, base, nr) == Fill(MapOf(disk0, base, nr), bitIdx, bitIdx + nrSects, false)
    {
      FreePlan(bitIdx, nrSects, nr - 1);
      var byteIdx := bitIdx / 8;
      var byteCnt := TruncDiv8(nrSects - (8 - bitIdx % 8));
      var s := base + byteIdx / SECTOR_SIZE;
      RdSect(s);
      assert Pending(s) == disk;
      var bitsLeft := FreeHead(bitIdx, nrSects, disk0, base, nr, s);
      var i := byteIdx % SECTOR_SIZE + 1;
      s, i, bitsLeft := FreeMiddle(s, i, bitsLeft, byteCnt, disk0, base, nr, bitIdx, bitIdx + nrSects - bitsLeft);
      FreeTail(s, i, bitsLeft, disk0, base, nr, bitIdx, bitIdx + nrSects - bitsLeft);
    }

    /** The last byte, on the next sector if need be. */
    method FreeTail(s0: nat, i0: nat, bitsLeft: nat, ghost disk0: seq<Sector>, ghost base: nat, ghost nr: nat,
        ghost bit: nat, ghost q: nat)
      requires Valid() && base + nr <= |disk0| && Freeing(disk0, base, nr, s0, bit, q) && bit <= q
      requires i0 <= SECTOR_SIZE && (i0 == SECTOR_SIZE ==> s0 + 1 < base + nr)
      requires bitsLeft < 8 && (bitsLeft > 0 ==> q % 8 == 0 && q / 8 == SECTOR_SIZE * (s0 - base) + i0)
      requires AllSet(MapOf(disk0, base, nr), q, q + bitsLeft)
      modifies this`disk, fsbuf
      ensures OnlyMap(disk0, disk, base, nr)
      ensures MapOf(disk, base, nr) == Fill(MapOf(disk0, base, nr), bit, q + bitsLeft, false)
    {
      var s, i := s0, i0;
      if i == SECTOR_SIZE {
        i := 0;
        s := NextSector(s);
      }
      ByteAt(SECTOR_SIZE * (s - base) + i, s - base, i);
      FreeLow(i, bitsLeft, disk0, base, nr, s, bit, q);
      WrSect(s);
    }

    /** The bits in the buffer are those of its sector in the pending map. */
    lemma HeldBits(base: nat, nr: nat, s: nat)
      requires Valid() && base <= s < base + nr <= |disk|
      ensures Held() == MapOf(Pending(s), base, nr)[SECTOR_BITS * (s - base)..SECTOR_BITS * (s - base + 1)]
    {
      SectorOfMap(Pending(s), base, nr, s - base);
    }
  }

  /** Division by 8 as C does it, toward zero. */
  function TruncDiv8(x: int): int {
    if x >= 0 then x / 8 else -((-x) / 8)
  }

  /** How often a loop `for (k = 0; k < n; k++)` runs. */
  function Count(n: int): nat {
    if n > 0 then n else 0
  }

  /** The arithmetic of do_unlink's three parts: `left` is what the first byte leaves of n bits. */
  lemma FreePlan(bit: nat, n: nat, nr: nat)
    requires bit < SECTOR_BITS * nr && bit + n <= SECTOR_BITS * nr
    ensures var left := if n < 8 - bit % 8 then 0 else n - (8 - bit % 8); var cnt := TruncDiv8(n - (8 - bit % 8));
            && 0 <= left - 8 * Count(cnt) < 8
            && (left > 0 ==> (bit + n - left) % 8 == 0 && (bit + n - left) / 8 == bit / 8 + 1)
            && (left > 8 * Count(cnt) ==>
                  (bit + n - (left - 8 * Count(cnt))) % 8 == 0
                  && (bit + n - (left - 8 * Count(cnt))) / 8 == bit / 8 + 1 + Count(cnt))
            && bit / 8 + 1 + Count(cnt) <= SECTOR_SIZE * nr
    ensures bit / 8 == SECTOR_SIZE * (bit / 8 / SECTOR_SIZE) + bit / 8 % SECTOR_SIZE
    ensures bit / 8 / SECTOR_SIZE == bit / SECTOR_BITS
  {
    var a, x := bit / 8, n - (8 - bit % 8);
    assert bit == 8 * a + bit % 8;
    if x >= 0 {
      assert x == 8 * (x / 8) + x % 8;
      assert bit + n - x == 8 * (a + 1);
      assert bit + n - (x - 8 * (x / 8)) == 8 * (a + 1 + x / 8);
    }
  }

  lemma MapPrefix(disk: seq<Sector>, base: nat, n: nat)
    requires base + n < |disk|
    ensures MapOf(disk, base, n + 1)[..SECTOR_BITS * n] == MapOf(disk, base, n)
    ensures MapOf(disk, base, n + 1)[SECTOR_BITS * n..] == BitsOf(disk[base + n])
  {
    SectorOfMap(disk, base, n + 1, n);
  }

  /** Freeing bits of the map proper in the map and one sector more leaves that sector alone. */
  lemma FreedAll(disk: seq<Sector>, disk': seq<Sector>, base: nat, n: nat, lo: nat, hi: nat)
    requires base + n < |disk| && |disk'| == |disk| && hi <= SECTOR_BITS * n && OnlyMap(disk, disk', base, n + 1)
    requires MapOf(disk', base, n + 1) == Fill(MapOf(disk, base, n + 1), lo, hi, false)
    ensures OnlyMap(disk, disk', base, n)
    ensures MapOf(disk', base, n) == Fill(MapOf(disk, base, n), lo, hi, false)
  {
    MapPrefix(disk, base, n);
    MapPrefix(disk', base, n);
    assert BitsOf(disk'[base + n]) == BitsOf(disk[base + n]);
    BytesFromBits(disk'[base + n], disk[base + n]);
  }

  lemma StillSetIn(m: seq<bool>, bit: nat, q: nat, c: nat, i: nat)
    requires AllSet(m, q, q + c) && SECTOR_BITS * i <= q && q + c <= SECTOR_BITS * (i + 1) <= |m|
    ensures AllSet(Fill(m, bit, q, false)[SECTOR_BITS * i..SECTOR_BITS * (i + 1)], q - SECTOR_BITS * i,
            q - SECTOR_BITS * i + c)
  {
  }

  /** Where bit q lies: sector, byte of the sector, bit of the byte. */
  lemma Position(q: nat)
    ensures q % SECTOR_BITS == 8 * (q / 8 % SECTOR_SIZE) + q % 8
    ensures q == SECTOR_BITS * (q / SECTOR_BITS) + q % SECTOR_BITS
  {
  }

  lemma ByteAt(x: nat, d: int, i: nat)
    requires x == SECTOR_SIZE * d + i && i < SECTOR_SIZE
    ensures 8 * x / SECTOR_BITS == d && 8 * x / 8 % SECTOR_SIZE == i && 8 * x % 8 == 0
  {
  }

  lemma PositionInByte(q: nat, t: nat)
    requires q % 8 + t < 8
    ensures (q + t) / 8 == q / 8 && (q + t) % 8 == q % 8 + t && (q + t) / SECTOR_BITS == q / SECTOR_BITS
  {
  }

  /** Clearing c more bits in the buffer frees c more bits of the pending map. */
  lemma FreeMore(disk: seq<Sector>, base: nat, nr: nat, s: nat, b: Sector, b': Sector, m: seq<bool>, bit: nat, q: nat,
      c: nat)
    requires base <= s < base + nr <= |disk| && |m| == SECTOR_BITS * nr && bit <= q
    requires MapOf(disk[s := b], base, nr) == Fill(m, bit, q, false)
    requires SECTOR_BITS * (s - base) <= q && q + c <= SECTOR_BITS * (s - base + 1)
    requires BitsOf(b') == Fill(BitsOf(b), q - SECTOR_BITS * (s - base), q + c - SECTOR_BITS * (s - base), false)
    ensures MapOf(disk[s := b'], base, nr) == Fill(m, bit, q + c, false)
  {
    var i := s - base;
    SectorOfMap(disk[s := b], base, nr, i);
    MapWrite(disk[s := b], base, nr, i, b');
    assert disk[s := b][base + i := b'] == disk[s := b'];
    FreeRun(m, SECTOR_BITS * i, bit, q, c);
  }

  /** Clearing the c bits from q on inside the run of SECTOR_BITS bits from lo on. */
  lemma FreeRun(m: seq<bool>, lo: nat, bit: nat, q: nat, c: nat)
    requires bit <= q && lo <= q && q + c <= lo + SECTOR_BITS <= |m|
    ensures var w := Fill(m, bit, q, false);
            w[..lo] + Fill(w[lo..lo + SECTOR_BITS], q - lo, q + c - lo, false) + w[lo + SECTOR_BITS..]
                == Fill(m, bit, q + c, false)
  {
    var w, hi := Fill(m, bit, q, false), lo + SECTOR_BITS;
    var run := Fill(w[lo..hi], q - lo, q + c - lo, false);
    var got, want := w[..lo] + run + w[hi..], Fill(m, bit, q + c, false);
    forall x | 0 <= x < |m| ensures got[x] == want[x] {
      assert w[x] == if bit <= x < q then false else m[x];
      if x < lo {
        assert got[x] == w[x];
      } else if x < hi {
        assert got[x] == run[x - lo] && w[lo..hi][x - lo] == w[x];
        assert run[x - lo] == if q - lo <= x - lo < q + c - lo then false else w[x];
      } else {
        assert got[x] == w[hi..][x - hi] == w[x];
      }
    }
  }

  /** The i-th run of bits looks to the scan as its part of the whole map does. */
  lemma FillStep(m: seq<bool>, f: nat, n: nat, i: nat, w: seq<bool>)
    requires SECTOR_BITS * (i + 1) <= |m| && Gap(m, f)
    requires w == Fill(m, f, Min(f + n, SECTOR_BITS * i), true)
    ensures var lo, hi := SECTOR_BITS * i, SECTOR_BITS * (i + 1);
            && Begins(w[lo..hi], f - lo)
            && (Clear(w[lo..hi], f - lo, n, 0, SECTOR_BITS) <==> Clear(m, f, n, lo, hi))
  {
    var lo, hi := SECTOR_BITS * i, SECTOR_BITS * (i + 1);
    var s, t := w[lo..hi], m[lo..hi];
    forall r | 0 <= r < hi - lo ensures s[r] == t[r] {
      assert w[lo + r] == if f <= lo + r < Min(f + n, lo) then true else m[lo + r];
    }
    assert s == t;
    RunClear(m, f, n, lo, hi);
  }

  lemma ClearSoFar(m: seq<bool>, f: nat, n: nat, lo: nat, hi: nat)
    requires lo <= hi <= |m| && Clear(m, f, n, 0, lo)
    ensures Clear(m, f, n, lo, hi) <==> Clear(m, f, n, 0, hi)
    ensures !Clear(m, f, n, lo, hi) ==> !Clear(m, f, n, 0, |m|)
    ensures Clear(m, f, n, lo, hi) && f + n <= hi ==> Clear(m, f, n, 0, |m|)
  {
  }

  /** A part of the run, seen in the whole map and in its own sector. */
  lemma RunClear(m: seq<bool>, f: nat, n: nat, lo: nat, hi: nat)
    requires lo <= hi <= |m|
    ensures Clear(m[lo..hi], f - lo, n, 0, hi - lo) <==> Clear(m, f, n, lo, hi)
  {
    var s := m[lo..hi];
    forall r | 0 <= r < |m| && lo <= r < hi ensures m[r] == s[r - lo] {
    }
  }

  /** Allocating in the run of bits lo..hi is that part of allocating in the whole map. */
  lemma FillRun(m: seq<bool>, f: nat, n: nat, lo: nat, hi: nat, w: seq<bool>)
    requires lo <= hi == lo + SECTOR_BITS <= |m| && w == Fill(m, f, Min(f + n, lo), true)
    ensures w[..lo] + Fill(w[lo..hi], f - lo, Min(f - lo + n, SECTOR_BITS), true) + w[hi..]
            == Fill(m, f, Min(f + n, hi), true)
  {
    var run := Fill(w[lo..hi], f - lo, Min(f - lo + n, SECTOR_BITS), true);
    var got, want := w[..lo] + run + w[hi..], Fill(m, f, Min(f + n, hi), true);
    forall x | 0 <= x < |m| ensures got[x] == want[x] {
      assert w[x] == if f <= x < Min(f + n, lo) then true else m[x];
      if x < lo {
        assert got[x] == w[x];
      } else if x < hi {
        assert got[x] == run[x - lo] && w[lo..hi][x - lo] == w[x];
        assert run[x - lo] == if f - lo <= x - lo < Min(f - lo + n, SECTOR_BITS) then true else w[x];
      } else {
        assert got[x] == w[hi..][x - hi] == w[x];
      }
    }
  }

  /** The i-th sector of the map holds the i-th run of SECTOR_BITS bits. */
  lemma SectorOfMap(disk: seq<Sector>, base: nat, n: nat, i: nat)
    requires base + n <= |disk| && i < n
    ensures BitsOf(disk[base + i]) == MapOf(disk, base, n)[SECTOR_BITS * i..SECTOR_BITS * (i + 1)]
  {
    var s, m := BitsOf(disk[base + i]), MapOf(disk, base, n);
    forall r | 0 <= r < SECTOR_BITS ensures s[r] == m[SECTOR_BITS * i + r] {
      assert (SECTOR_BITS * i + r) / SECTOR_BITS == i && (SECTOR_BITS * i + r) % SECTOR_BITS == r;
    }
  }

  lemma OneSectorMap(disk: seq<Sector>, base: nat)
    requires base < |disk|
    ensures MapOf(disk, base, 1) == BitsOf(disk[base])
  {
  }

  /** Writing the i-th sector replaces that run of bits. */
  lemma MapWrite(disk: seq<Sector>, base: nat, n: nat, i: nat, b: Sector)
    requires base + n <= |disk| && i < n
    ensures var m := MapOf(disk, base, n);
            MapOf(disk[base + i := b], base, n) == m[..SECTOR_BITS * i] + BitsOf(b) + m[SECTOR_BITS * (i + 1)..]
  {
    var m, m' := MapOf(disk, base, n), MapOf(disk[base + i := b], base, n);
    SectorOfMap(disk[base + i := b], base, n, i);
    forall q | 0 <= q < |m| && !(SECTOR_BITS * i <= q < SECTOR_BITS * (i + 1)) ensures m'[q] == m[q] {
      assert q / SECTOR_BITS != i;
    }
  }
}
