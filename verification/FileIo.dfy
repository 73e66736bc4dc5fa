/**
 Reading and writing regular files: do_rdwt moves whole chunks of sectors through the buffer,
 proved to read and to overwrite exactly a range of bytes.
 */
module FileIo {
  import opened Base
  import opened Bits

  /** FSBUF_SIZE in sectors. */
  const FSBUF_SECTS := 2048

  /** `s` with x written over it from `at` on. */
  function Splice(s: seq<byte>, at: nat, x: seq<byte>): (r: seq<byte>)
    requires at + |x| <= |s|
    ensures |r| == |s|
  {
    s[..at] + x + s[at + |x|..]
  }

  lemma SpliceAt(s: seq<byte>, at: nat, x: seq<byte>)
    requires at + |x| <= |s|
    ensures var r := Splice(s, at, x);
            r[at..at + |x|] == x && forall i | 0 <= i < |s| && !(at <= i < at + |x|) :: r[i] == s[i]
  {
  }

  lemma SpliceMore(s: seq<byte>, at: nat, x: seq<byte>, y: seq<byte>)
    requires at + |x| + |y| <= |s|
    ensures Splice(Splice(s, at, x), at + |x|, y) == Splice(s, at, x + y)
  {
  }

  lemma SplicePrefix(s: seq<byte>, n: nat, at: nat, x: seq<byte>)
    requires at + |x| <= n <= |s|
    ensures Splice(s, at, x)[..n] == Splice(s[..n], at, x)
  {
  }

  /** Writing over part of a window and putting the window back writes over that part only. */
  lemma SpliceWindow(s: seq<byte>, lo: nat, hi: nat, at: nat, x: seq<byte>)
    requires lo <= hi <= |s| && at + |x| <= hi - lo
    ensures Splice(s, lo, Splice(s[lo..hi], at, x)) == Splice(s, lo + at, x)
  {
  }

  lemma SliceOfSlice(s: seq<byte>, a: nat, b: nat, lo: nat, hi: nat)
    requires a <= b <= |s| && lo <= hi <= b - a
    ensures s[a..b][lo..hi] == s[a + lo..a + hi]
  {
    assert |s[a..b][lo..hi]| == hi - lo;
    forall k | 0 <= k < hi - lo ensures s[a..b][lo..hi][k] == s[a + lo..a + hi][k] {
      assert s[a..b][lo + k] == s[a + (lo + k)];
    }
  }

  /** Read, change in the buffer, write back. */
  lemma ReadModifyWrite(disk: seq<byte>, lo: nat, n: nat, buffer: seq<byte>, off: nat, x: seq<byte>)
    requires lo + n <= |disk| && n <= |buffer| && buffer[..n] == disk[lo..lo + n] && off + |x| <= n
    ensures Splice(disk, lo, Splice(buffer, off, x)[..n]) == Splice(disk, lo + off, x)
  {
    SplicePrefix(buffer, n, off, x);
    SpliceWindow(disk, lo, lo + n, off, x);
  }


  // ---------------------------------------------------------------- how much is moved

  /** The sectors from that of pos to that of the clipped end. */
  function Span(pos: nat, len: nat, limit: nat): int {
    Min(pos + len, limit) / SECTOR_SIZE - pos / SECTOR_SIZE + 1
  }

  /** `span` sectors in whole buffers. */
  function RoundUp(span: int): (n: nat)
    ensures n >= span
    decreases if span > 0 then span else 0
  {
    if span <= 0 then 0 else FSBUF_SECTS + RoundUp(span - FSBUF_SECTS)
  }

  /** The sectors that the chunk loop goes through: whole chunks. */
  function Rounded(span: int): nat {
    if span <= 0 then 0 else if span <= FSBUF_SECTS then span else RoundUp(span)
  }

  function Sects(pos: nat, len: nat, limit: nat): nat {
    Rounded(Span(pos, len, limit))
  }

  /** The bytes that n sectors give of a request of len bytes that begins at byte `off` of the first. */
  function Covered(off: nat, len: nat, n: nat): nat
    requires off < SECTOR_SIZE
  {
    if n == 0 then 0 else Min(len, SECTOR_SIZE * n - off)
  }

  /** What do_rdwt returns; `limit` is the size of the file for READ, of its extent for WRITE. */
  function Moved(pos: nat, len: nat, limit: nat): nat {
    Covered(pos % SECTOR_SIZE, len, Sects(pos, len, limit))
  }

  lemma EnoughSects(pos: nat, len: nat, limit: nat)
    requires pos <= limit
    ensures Sects(pos, len, limit) >= Span(pos, len, limit) > 0
    ensures SECTOR_SIZE * Sects(pos, len, limit) - pos % SECTOR_SIZE > Min(pos + len, limit) - pos
  {
    var span, e := Span(pos, len, limit), Min(pos + len, limit);
    assert pos == SECTOR_SIZE * (pos / SECTOR_SIZE) + pos % SECTOR_SIZE;
    assert e == SECTOR_SIZE * (e / SECTOR_SIZE) + e % SECTOR_SIZE;
  }

  /** The clipping holds the transfer inside the limit exactly when the request was inside it; then all of it is moved.
      A request that reaches over the limit is not cut off there. */
  lemma MovedExact(pos: nat, len: nat, limit: nat)
    requires pos <= limit
    ensures pos + Moved(pos, len, limit) <= limit <==> pos + len <= limit
    ensures pos + len <= limit ==> Moved(pos, len, limit) == len
  {
    EnoughSects(pos, len, limit);
  }

  /** The byte at which the chunks of a request that reaches over the limit end. */
  function Stop(pos: nat, limit: nat): nat
    requires pos <= limit
  {
    SECTOR_SIZE * (pos / SECTOR_SIZE + Rounded(limit / SECTOR_SIZE - pos / SECTOR_SIZE + 1))
  }

  lemma {:induction false} RoundUpIs(span: int)
    requires span > 0
    ensures RoundUp(span) % FSBUF_SECTS == 0 && span <= RoundUp(span) < span + FSBUF_SECTS
    decreases span
  {
    if span > FSBUF_SECTS { RoundUpIs(span - FSBUF_SECTS); }
  }

  /** The chunks end with the sector of the limit when one buffer is enough from the sector of pos on; otherwise
      after the fewest whole buffers that reach over the limit. */
  lemma StopIs(pos: nat, limit: nat)
    requires pos <= limit
    ensures var first := pos / SECTOR_SIZE * SECTOR_SIZE; var stop := Stop(pos, limit);
            && limit < stop
            && (limit - first < FSBUF_SIZE ==> stop % SECTOR_SIZE == 0 && stop <= limit + SECTOR_SIZE)
            && (limit - first >= FSBUF_SIZE ==> (stop - first) % FSBUF_SIZE == 0 && stop <= limit + FSBUF_SIZE)
  {
    var a, b := pos / SECTOR_SIZE, limit / SECTOR_SIZE;
    assert pos == SECTOR_SIZE * a + pos % SECTOR_SIZE && limit == SECTOR_SIZE * b + limit % SECTOR_SIZE;
    RoundUpIs(b - a + 1);
    if b - a + 1 > FSBUF_SECTS {
      var q := Rounded(b - a + 1) / FSBUF_SECTS;
      assert Rounded(b - a + 1) == FSBUF_SECTS * q;
      assert Stop(pos, limit) - a * SECTOR_SIZE == FSBUF_SIZE * q;
    }
  }

  /** What is moved of a request that reaches over the limit. */
  lemma Overrun(pos: nat, len: nat, limit: nat)
    requires pos <= limit < pos + len
    ensures Stop(pos, limit) > limit && Moved(pos, len, limit) == Min(len, Stop(pos, limit) - pos)
  {
    StopIs(pos, limit);
    assert pos == SECTOR_SIZE * (pos / SECTOR_SIZE) + pos % SECTOR_SIZE;
  }

  /** Over the end of a full extent: one sector further, but the whole extent behind it from the file's first sector. */
  lemma FullExtentStop(pos: nat)
    requires pos <= FSBUF_SIZE
    ensures Stop(pos, FSBUF_SIZE) == if pos < SECTOR_SIZE then 2 * FSBUF_SIZE else FSBUF_SIZE + SECTOR_SIZE
  {
    if pos < SECTOR_SIZE { RoundUpIs(FSBUF_SECTS + 1); }
  }

  // ---------------------------------------------------------------- a file is a byte array

  /** The contents of a file of `size` bytes whose extent starts at sector `start`. */
  function FileBytes(disk: seq<byte>, start: nat, size: nat): seq<byte>
    requires SECTOR_SIZE * start + size <= |disk|
  {
    disk[SECTOR_SIZE * start..SECTOR_SIZE * start + size]
  }

  /** Writing `data` at pos into a byte array, which grows at its end. */
  function Overwritten(file: seq<byte>, pos: nat, data: seq<byte>): seq<byte>
    requires pos <= |file|
  {
    if pos + |data| <= |file| then file[..pos] + data + file[pos + |data|..] else file[..pos] + data
  }

  /** A WRITE inside the extent writes the byte array and touches no other file. */
  lemma WriteRefines(disk: seq<byte>, start: nat, nrSects: nat, size: nat, pos: nat, data: seq<byte>)
    requires SECTOR_SIZE * (start + nrSects) <= |disk| && pos <= size <= SECTOR_SIZE * nrSects
    requires pos + |data| <= SECTOR_SIZE * nrSects
    ensures var disk' := Splice(disk, SECTOR_SIZE * start + pos, data);
            && FileBytes(disk', start, Max(size, pos + |data|)) == Overwritten(FileBytes(disk, start, size), pos, data)
            && forall start', size': nat | SECTOR_SIZE * start' + size' <= |disk|
                 && (start + nrSects <= start' || SECTOR_SIZE * start' + size' <= SECTOR_SIZE * start) ::
                 FileBytes(disk', start', size') == FileBytes(disk, start', size')
  {
    WrittenBytes(disk, start, size, pos, data);
    OthersSame(disk, SECTOR_SIZE * start + pos, data, start, nrSects);
  }

  lemma WrittenBytes(disk: seq<byte>, start: nat, size: nat, pos: nat, data: seq<byte>)
    requires pos <= size && SECTOR_SIZE * start + Max(size, pos + |data|) <= |disk|
    ensures FileBytes(Splice(disk, SECTOR_SIZE * start + pos, data), start, Max(size, pos + |data|))
         == Overwritten(FileBytes(disk, start, size), pos, data)
  {
    var lo, size' := SECTOR_SIZE * start, Max(size, pos + |data|);
    SpliceSlice(disk, lo, size, pos, data);
    assert FileBytes(Splice(disk, lo + pos, data), start, size') == Splice(disk, lo + pos, data)[lo..lo + size'];
    assert FileBytes(disk, start, size) == disk[lo..lo + size];
  }

  /** Bytes written inside an extent are outside every file that lies outside the extent. */
  lemma OthersSame(disk: seq<byte>, at: nat, data: seq<byte>, start: nat, nrSects: nat)
    requires SECTOR_SIZE * start <= at && at + |data| <= SECTOR_SIZE * (start + nrSects) <= |disk|
    ensures forall start', size': nat | SECTOR_SIZE * start' + size' <= |disk|
              && (start + nrSects <= start' || SECTOR_SIZE * start' + size' <= SECTOR_SIZE * start) ::
              FileBytes(Splice(disk, at, data), start', size') == FileBytes(disk, start', size')
  {
    forall start', size': nat | SECTOR_SIZE * start' + size' <= |disk|
      && (start + nrSects <= start' || SECTOR_SIZE * start' + size' <= SECTOR_SIZE * start)
      ensures FileBytes(Splice(disk, at, data), start', size') == FileBytes(disk, start', size')
    {
      OutsideSame(disk, at, data, SECTOR_SIZE * start', size');
    }
  }

  lemma SpliceByte(s: seq<byte>, lo: nat, size: nat, pos: nat, x: seq<byte>, k: nat)
    requires pos <= size && lo + size <= |s| && lo + pos + |x| <= |s| && k < Max(size, pos + |x|)
    ensures var want := Overwritten(s[lo..lo + size], pos, x);
            |want| == Max(size, pos + |x|) && Splice(s, lo + pos, x)[lo + k] == want[k]
  {
    var file := s[lo..lo + size];
    if k < pos {
      assert file[k] == s[lo + k];
    } else if k >= pos + |x| {
      assert file[k] == s[lo + k];
    }
  }

  lemma SpliceSlice(s: seq<byte>, lo: nat, size: nat, pos: nat, x: seq<byte>)
    requires pos <= size && lo + size <= |s| && lo + pos + |x| <= |s|
    ensures Splice(s, lo + pos, x)[lo..lo + Max(size, pos + |x|)] == Overwritten(s[lo..lo + size], pos, x)
  {
    var r := Splice(s, lo + pos, x);
    var got, want := r[lo..lo + Max(size, pos + |x|)], Overwritten(s[lo..lo + size], pos, x);
    assert |got| == |want|;
    forall k | 0 <= k < |got| ensures got[k] == want[k] {
      SpliceByte(s, lo, size, pos, x, k);
      assert got[k] == r[lo + k];
    }
  }

  lemma OutsideSame(s: seq<byte>, at: nat, x: seq<byte>, lo: nat, n: nat)
    requires at + |x| <= |s| && lo + n <= |s| && (at + |x| <= lo || lo + n <= at)
    ensures Splice(s, at, x)[lo..lo + n] == s[lo..lo + n]
  {
    SpliceAt(s, at, x);
  }

  /** No n bytes written at byte `at` change the file. */
  ghost predicate LeavesAlone(disk: seq<byte>, at: nat, n: nat, start: nat, size: nat)
    requires at + n <= |disk| && SECTOR_SIZE * start + size <= |disk|
  {
    forall data: seq<byte> | |data| == n ::
      FileBytes(Splice(disk, at, data), start, size) == FileBytes(disk, start, size)
  }

  /** That is so exactly when the bytes written lie outside the file. */
  lemma LeavesAloneExact(disk: seq<byte>, at: nat, n: nat, start: nat, size: nat)
    requires at + n <= |disk| && SECTOR_SIZE * start + size <= |disk|
    ensures LeavesAlone(disk, at, n, start, size) <==>
            at + n <= SECTOR_SIZE * start || SECTOR_SIZE * start + size <= at || n == 0 || size == 0
  {
    var lo := SECTOR_SIZE * start;
    if at + n <= lo || lo + size <= at || n == 0 || size == 0 {
      forall data: seq<byte> | |data| == n
        ensures FileBytes(Splice(disk, at, data), start, size) == FileBytes(disk, start, size)
      {
        Untouched(disk, at, data, start, size);
      }
    } else {
      var x := Max(at, lo);
      var data := seq(n, i requires 0 <= i < n => Other(disk[at + i]));
      assert at <= x < at + n && lo <= x < lo + size;
      assert Splice(disk, at, data)[x] == data[x - at] == Other(disk[x]);
      assert FileBytes(Splice(disk, at, data), start, size)[x - lo] == Splice(disk, at, data)[x];
      assert FileBytes(disk, start, size)[x - lo] == disk[x];
    }
  }

  lemma Untouched(disk: seq<byte>, at: nat, data: seq<byte>, start: nat, size: nat)
    requires at + |data| <= |disk| && SECTOR_SIZE * start + size <= |disk|
    requires at + |data| <= SECTOR_SIZE * start || SECTOR_SIZE * start + size <= at || data == [] || size == 0
    ensures FileBytes(Splice(disk, at, data), start, size) == FileBytes(disk, start, size)
  {
    if data == [] {
      assert Splice(disk, at, data) == disk;
    } else if size > 0 {
      OutsideSame(disk, at, data, SECTOR_SIZE * start, size);
    }
  }

  function Other(b: byte): (c: byte)
    ensures c != b
  {
    if b == 0 then 1 else 0
  }

  /** A WRITE that reaches over the extent puts the rest of what it moves at the beginning of what lies behind. */
  lemma OverrunHitsNeighbour(disk: seq<byte>, start: nat, nrSects: nat, pos: nat, data: seq<byte>)
    requires pos <= SECTOR_SIZE * nrSects < pos + |data|
    requires SECTOR_SIZE * start + Stop(pos, SECTOR_SIZE * nrSects) <= |disk|
    ensures var cap := SECTOR_SIZE * nrSects; var n := Moved(pos, |data|, cap);
            && cap < pos + n <= Stop(pos, cap) && n <= |data|
            && var disk' := Splice(disk, SECTOR_SIZE * start + pos, data[..n]);
               FileBytes(disk', start + nrSects, pos + n - cap) == data[cap - pos..n]
  {
    var cap := SECTOR_SIZE * nrSects;
    Overrun(pos, |data|, cap);
    var n := Moved(pos, |data|, cap);
    SpliceTail(disk, SECTOR_SIZE * start + pos, data[..n], cap - pos);
  }

  lemma SpliceTail(s: seq<byte>, at: nat, x: seq<byte>, k: nat)
    requires at + |x| <= |s| && k <= |x|
    ensures Splice(s, at, x)[at + k..at + |x|] == x[k..]
  {
    SpliceAt(s, at, x);
    assert Splice(s, at, x)[at + k..at + |x|] == Splice(s, at, x)[at..at + |x|][k..];
  }

  /** Write, seek back to where the write began, read as much: the data come back. */
  lemma WriteThenRead(disk: seq<byte>, start: nat, nrSects: nat, size: nat, pos: nat, data: seq<byte>)
    requires SECTOR_SIZE * (start + nrSects) <= |disk| && pos <= size <= SECTOR_SIZE * nrSects
    requires pos + |data| <= SECTOR_SIZE * nrSects
    ensures var n := Moved(pos, |data|, SECTOR_SIZE * nrSects); var size' := Max(size, pos + n);
            && n == |data| && SeekTo(pos + n, size', SEEK_SET, pos) == pos && Moved(pos, n, size') == n
            && var disk' := Splice(disk, SECTOR_SIZE * start + pos, data);
               FileBytes(disk', start, size')[pos..pos + n] == data
  {
    MovedExact(pos, |data|, SECTOR_SIZE * nrSects);
    MovedExact(pos, |data|, Max(size, pos + |data|));
    SpliceAt(disk, SECTOR_SIZE * start + pos, data);
  }

  // ---------------------------------------------------------------- do_lseek

  const SEEK_SET := 1
  const SEEK_CUR := 2
  const SEEK_END := 3

  /** The new position, -1 when it is refused. */
  function SeekTo(pos: nat, size: nat, whence: int, off: int): int {
    var target := if whence == SEEK_SET then off else if whence == SEEK_CUR then pos + off
                  else if whence == SEEK_END then size + off else -1;
    if 0 <= target <= size then target else -1
  }

  /** Seeking by 1, 2 and 3: from the beginning, from the position, from the end; only into the file or to its end.
      Two relative seeks are one, and nothing else is a way to seek. */
  lemma SeekLaws(pos: nat, size: nat, a: int, b: int, whence: int)
    requires pos <= size
    ensures SeekTo(pos, size, 1, a) == SeekTo(0, size, 2, a) == SeekTo(size, size, 3, a - size)
    ensures SeekTo(pos, size, 1, a) == (if 0 <= a <= size then a else -1)
    ensures SeekTo(pos, size, 2, 0) == pos && SeekTo(pos, size, 3, 0) == size
    ensures SeekTo(pos, size, 2, a) >= 0 ==>
              SeekTo(SeekTo(pos, size, 2, a), size, 2, b) == SeekTo(pos, size, 2, a + b)
    ensures whence < 1 || whence > 3 ==> SeekTo(pos, size, whence, a) == -1
  {
  }

  // ---------------------------------------------------------------- the code

  class DataDisk {
    /** All sectors of the disk in a row. */
    var disk: seq<byte>
    const fsbuf: array<byte>

    constructor (image: seq<byte>)
      ensures fresh(fsbuf) && Valid() && disk == image
    {
      disk := image;
      fsbuf := new byte[FSBUF_SIZE];
    }

    predicate Valid() {
      fsbuf.Length == FSBUF_SIZE
    }

    /** rw_sector(DEV_READ): `bytes` bytes at byte `pos` of the disk. */
    method DevRead(pos: nat, bytes: nat)
      requires Valid() && pos + bytes <= |disk| && bytes <= FSBUF_SIZE
      modifies fsbuf
      ensures fsbuf[..bytes] == disk[pos..pos + bytes]
    {
      for k := 0 to bytes
        invariant fsbuf[..k] == disk[pos..pos + k]
      {
        fsbuf[k] := disk[pos + k];
      }
    }

    /** rw_sector(DEV_WRITE). */
    method DevWrite(pos: nat, bytes: nat)
      requires Valid() && pos + bytes <= |disk| && bytes <= FSBUF_SIZE
      modifies this`disk
      ensures disk == Splice(old(disk), pos, fsbuf[..bytes])
    {
      disk := disk[..pos] + fsbuf[..bytes] + disk[pos + bytes..];
    }

    method CopyOut(buf: array<byte>, at: nat, off: nat, bytes: nat)
      requires Valid() && buf != fsbuf && at + bytes <= buf.Length && off + bytes <= FSBUF_SIZE
      modifies buf
      ensures buf[..] == Splice(old(buf[..]), at, fsbuf[off..off + bytes])
    {
      ghost var before := buf[..];
      for k := 0 to bytes
        invariant forall x | 0 <= x < buf.Length ::
                    buf[x] == if at <= x < at + k then fsbuf[off + x - at] else before[x]
      {
        buf[at + k] := fsbuf[off + k];
      }
    }

    method CopyIn(buf: array<byte>, at: nat, off: nat, bytes: nat)
      requires Valid() && buf != fsbuf && at + bytes <= buf.Length && off + bytes <= FSBUF_SIZE
      modifies fsbuf
      ensures fsbuf[..] == Splice(old(fsbuf[..]), off, buf[at..at + bytes])
    {
      ghost var before := fsbuf[..];
      for k := 0 to bytes
        invariant forall x | 0 <= x < fsbuf.Length ::
                    fsbuf[x] == if off <= x < off + k then buf[at + x - off] else before[x]
      {
        fsbuf[off + k] := buf[at + k];
      }
    }

    /** One chunk of a READ. */
    method ReadChunk(i: nat, chunk: nat, off: nat, buf: array<byte>, at: nat, bytes: nat)
      requires Valid() && buf != fsbuf && chunk <= FSBUF_SECTS && SECTOR_SIZE * (i + chunk) <= |disk|
      requires off + bytes <= SECTOR_SIZE * chunk && at + bytes <= buf.Length
      modifies fsbuf, buf
      ensures buf[..] == Splice(old(buf[..]), at, disk[SECTOR_SIZE * i + off..SECTOR_SIZE * i + off + bytes])
    {
      DevRead(i * SECTOR_SIZE, chunk * SECTOR_SIZE);
      SliceOfSlice(fsbuf[..], 0, chunk * SECTOR_SIZE, off, off + bytes);
      SliceOfSlice(disk, i * SECTOR_SIZE, (i + chunk) * SECTOR_SIZE, off, off + bytes);
      CopyOut(buf, at, off, bytes);
    }

    /** One chunk of a WRITE: read, change, write back. */
    method WriteChunk(i: nat, chunk: nat, off: nat, buf: array<byte>, at: nat, bytes: nat)
      requires Valid() && buf != fsbuf && chunk <= FSBUF_SECTS && SECTOR_SIZE * (i + chunk) <= |disk|
      requires off + bytes <= SECTOR_SIZE * chunk && at + bytes <= buf.Length
      modifies this`disk, fsbuf
      ensures disk == Splice(old(disk), SECTOR_SIZE * i + off, buf[at..at + bytes])
    {
      DevRead(i * SECTOR_SIZE, chunk * SECTOR_SIZE);
      ghost var buffer := fsbuf[..];
      ReadModifyWrite(disk, i * SECTOR_SIZE, chunk * SECTOR_SIZE, buffer, off, buf[at..at + bytes]);
      CopyIn(buf, at, off, bytes);
      DevWrite(i * SECTOR_SIZE, chunk * SECTOR_SIZE);
    }

    method WriteRound(i: nat, chunk: nat, off: nat, buf: array<byte>, done: nat, bytes: nat, ghost at: nat,
        ghost disk0: seq<byte>)
      requires Valid() && buf != fsbuf && chunk <= FSBUF_SECTS && SECTOR_SIZE * (i + chunk) <= |disk|
      requires off + bytes <= SECTOR_SIZE * chunk && done + bytes <= buf.Length
      requires bytes > 0 ==> SECTOR_SIZE * i + off == at + done
      requires at + done <= |disk0| && disk == Splice(disk0, at, buf[..done])
      modifies this`disk, fsbuf
      ensures Done(true, at, done + bytes, disk0, buf[..], disk, buf[..])
    {
      WriteChunk(i, chunk, off, buf, done, bytes);
      DoneWriting(at, done, bytes, disk0, buf[..], SECTOR_SIZE * i + off);
      assert buf[..][..done] == buf[..done] && buf[..][done..done + bytes] == buf[done..done + bytes];
    }

    method ReadRound(i: nat, chunk: nat, off: nat, buf: array<byte>, done: nat, bytes: nat, ghost at: nat,
        ghost buf0: seq<byte>)
      requires Valid() && buf != fsbuf && chunk <= FSBUF_SECTS && SECTOR_SIZE * (i + chunk) <= |disk|
      requires off + bytes <= SECTOR_SIZE * chunk && done + bytes <= buf.Length == |buf0|
      requires bytes > 0 ==> SECTOR_SIZE * i + off == at + done
      requires at + done <= |disk| && buf[..] == Splice(buf0, 0, disk[at..at + done])
      modifies fsbuf, buf
      ensures Done(false, at, done + bytes, disk, buf0, disk, buf[..])
    {
      ReadChunk(i, chunk, off, buf, done, bytes);
      DoneReading(at, done, bytes, disk, buf0, SECTOR_SIZE * i + off);
    }

    /** One round of the loop, of either kind. */
    method Round(write: bool, i: nat, chunk: nat, off: nat, buf: array<byte>, done: nat, bytes: nat, ghost at: nat,
                 ghost disk0: seq<byte>, ghost buf0: seq<byte>)
      requires Valid() && buf != fsbuf && chunk <= FSBUF_SECTS && SECTOR_SIZE * (i + chunk) <= |disk|
      requires off + bytes <= SECTOR_SIZE * chunk && done + bytes <= buf.Length
      requires bytes > 0 ==> SECTOR_SIZE * i + off == at + done
      requires Done(write, at, done, disk0, buf0, disk, buf[..])
      modifies this`disk, fsbuf, buf
      ensures Done(write, at, done + bytes, disk0, buf0, disk, buf[..])
    {
      if write {
        assert buf[..][..done] == buf[..done];
        WriteRound(i, chunk, off, buf, done, bytes, at, disk0);
      } else {
        ReadRound(i, chunk, off, buf, done, bytes, at, buf0);
      }
    }

    /** The loop of do_rdwt; `limit` is what the end is clipped to. */
    method Transfer(write: bool, start: nat, pos: nat, limit: nat, buf: array<byte>, len: nat) returns (bytesRw: nat)
      requires Valid() && buf != fsbuf && len <= buf.Length
      requires SECTOR_SIZE * (start + pos / SECTOR_SIZE + Sects(pos, len, limit)) <= |disk|
      requires SECTOR_SIZE * start + pos <= |disk|
      modifies this`disk, fsbuf, buf
      ensures bytesRw == Moved(pos, len, limit)
      ensures Done(write, SECTOR_SIZE * start + pos, bytesRw, old(disk), old(buf[..]), disk, buf[..])
    {
      var posEnd := Min(pos + len, limit);
      var rwSectMin := start + pos / SECTOR_SIZE;
      var rwSectMax := start + posEnd / SECTOR_SIZE;
      assert SECTOR_SIZE * start + pos == SECTOR_SIZE * rwSectMin + pos % SECTOR_SIZE;
      bytesRw := Chunks(write, rwSectMin, rwSectMax, pos % SECTOR_SIZE, buf, len);
    }

    /** One chunk of the loop. */
    method Chunk(write: bool, i: nat, chunk: nat, off: nat, buf: array<byte>, bytesRw: nat, bytesLeft: nat,
        ghost job: Job)
      returns (bytes: nat)
      requires Valid() && buf != fsbuf && job.len <= buf.Length && job.off < SECTOR_SIZE
      requires chunk == Min(job.span, FSBUF_SECTS) && SECTOR_SIZE * (job.first + Rounded(job.span)) <= |disk|
      requires job.first <= i < job.first + job.span && |disk| == |job.disk|
      requires Underway(write, job, i, off, bytesRw, bytesLeft, disk, buf[..])
      modifies this`disk, fsbuf, buf
      ensures |disk| == |job.disk| && chunk > 0 && bytes <= bytesLeft
      ensures Underway(write, job, i + chunk, 0, bytesRw + bytes, bytesLeft - bytes, disk, buf[..])
    {
      ghost var n := i - job.first;
      NextRound(job.span, n, chunk);
      NextBytes(job.off, job.len, n, chunk, off, bytesRw, bytesLeft);
      bytes := Min(bytesLeft, chunk * SECTOR_SIZE - off);
      Round(write, i, chunk, off, buf, bytesRw, bytes, job.At(), job.disk, job.buf);
    }

    /** The chunks from sector rwSectMin to rwSectMax; the transfer begins at byte off0 of the first. */
    method Chunks(write: bool, rwSectMin: nat, rwSectMax: nat, off0: nat, buf: array<byte>, len: nat)
        returns (bytesRw: nat)
      requires Valid() && buf != fsbuf && len <= buf.Length && off0 < SECTOR_SIZE
      requires SECTOR_SIZE * (rwSectMin + Rounded(rwSectMax - rwSectMin + 1)) <= |disk|
      requires SECTOR_SIZE * rwSectMin + off0 <= |disk|
      modifies this`disk, fsbuf, buf
      ensures bytesRw == Covered(off0, len, Rounded(rwSectMax - rwSectMin + 1))
      ensures Done(write, SECTOR_SIZE * rwSectMin + off0, bytesRw, old(disk), old(buf[..]), disk, buf[..])
    {
      ghost var job := Job(rwSectMin, off0, len, rwSectMax - rwSectMin + 1, disk, buf[..]);
      NothingDone(write, job);
      bytesRw := Rounds(write, rwSectMin, rwSectMax, off0, buf, len, job);
    }

    /** The loop over the chunks. */
    method Rounds(write: bool, rwSectMin: nat, rwSectMax: nat, off0: nat, buf: array<byte>, len: nat, ghost job: Job)
        returns (bytesRw: nat)
      requires Valid() && buf != fsbuf && job.len <= buf.Length && job.off < SECTOR_SIZE && |disk| == |job.disk|
      requires SECTOR_SIZE * (job.first + Rounded(job.span)) <= |disk| && job.span == rwSectMax - job.first + 1
      requires job.first == rwSectMin && Underway(write, job, rwSectMin, off0, 0, len, disk, buf[..])
      modifies this`disk, fsbuf, buf
      ensures bytesRw == Covered(job.off, job.len, Rounded(job.span))
      ensures Done(write, job.At(), bytesRw, job.disk, job.buf, disk, buf[..])
    {
      var chunk := Min(rwSectMax - rwSectMin + 1, FSBUF_SECTS);
      var off := off0;
      bytesRw := 0;
      var bytesLeft := len;
      var i := rwSectMin;
      while i <= rwSectMax
        invariant i >= rwSectMin && bytesLeft >= 0 && |disk| == |job.disk|
        invariant Underway(write, job, i, off, bytesRw, bytesLeft, disk, buf[..])
      {
        var bytes := Chunk(write, i, chunk, off, buf, bytesRw, bytesLeft, job);
        off := 0;
        bytesRw := bytesRw + bytes;
        bytesLeft := bytesLeft - bytes;
        i := i + chunk;
      }
      AllDone(write, job, i, off, bytesRw, bytesLeft, disk, buf[..]);
    }
  }

  /** A transfer of len bytes from byte `off` of sector `first` on, through `span` sectors; disk and buffer as it
      began. */
  datatype Job = Job(first: nat, off: nat, len: nat, span: int, disk: seq<byte>, buf: seq<byte>)
  {
    function At(): nat { SECTOR_SIZE * first + off }
  }

  /** The loop stands at sector i. */
  ghost predicate Underway(write: bool, job: Job, i: nat, off: nat, bytesRw: nat, bytesLeft: int, disk: seq<byte>,
      buf: seq<byte>) {
    && i >= job.first && InRounds(job.span, i - job.first) && job.off < SECTOR_SIZE
    && CoveredTo(job.off, job.len, i - job.first, off, bytesRw, bytesLeft)
    && Done(write, job.At(), bytesRw, job.disk, job.buf, disk, buf)
  }

  /** The loop has gone through n sectors of its chunks. */
  ghost predicate InRounds(span: int, n: nat) {
    if span <= FSBUF_SECTS then n == 0 || n == span else RoundUp(span) == n + RoundUp(span - n)
  }

  lemma NextRound(span: int, n: nat, chunk: int)
    requires InRounds(span, n) && n < span && chunk == Min(span, FSBUF_SECTS)
    ensures 0 < chunk <= FSBUF_SECTS && InRounds(span, n + chunk) && n + chunk <= Rounded(span)
  {
  }

  lemma NothingDone(write: bool, job: Job)
    requires job.At() <= |job.disk| && job.off < SECTOR_SIZE
    ensures Underway(write, job, job.first, job.off, 0, job.len, job.disk, job.buf)
  {
    var at, disk, buf := job.At(), job.disk, job.buf;
    assert Splice(disk, at, buf[..0]) == disk && Splice(buf, 0, disk[at..at + 0]) == buf;
  }

  lemma AllDone(write: bool, job: Job, i: nat, off: nat, bytesRw: nat, bytesLeft: int, disk: seq<byte>, buf: seq<byte>)
    requires Underway(write, job, i, off, bytesRw, bytesLeft, disk, buf) && i - job.first >= job.span
    ensures job.off < SECTOR_SIZE && bytesRw == Covered(job.off, job.len, Rounded(job.span))
    ensures Done(write, job.At(), bytesRw, job.disk, job.buf, disk, buf)
  {
  }

  /** The loop's variables after n sectors. */
  ghost predicate CoveredTo(off0: nat, len: nat, n: nat, off: nat, bytesRw: nat, bytesLeft: int)
    requires off0 < SECTOR_SIZE
  {
    bytesRw == Covered(off0, len, n) && bytesLeft == len - bytesRw && off == if n == 0 then off0 else 0
  }

  /** The bytes of one chunk more, and where they lie. */
  lemma NextBytes(off0: nat, len: nat, n: nat, chunk: nat, off: nat, bytesRw: nat, bytesLeft: int)
    requires off0 < SECTOR_SIZE && chunk > 0 && CoveredTo(off0, len, n, off, bytesRw, bytesLeft)
    ensures var bytes := Min(bytesLeft, chunk * SECTOR_SIZE - off);
            && bytes >= 0 && CoveredTo(off0, len, n + chunk, 0, bytesRw + bytes, bytesLeft - bytes)
            && bytesRw + bytes <= len && off + bytes <= SECTOR_SIZE * chunk
            && (bytes > 0 ==> SECTOR_SIZE * n + off == off0 + bytesRw)
  {
  }

  /** Going on writing where the last write ended; nothing written at all may be written anywhere. */
  lemma SpliceOn(s: seq<byte>, at: nat, x: seq<byte>, p: nat, y: seq<byte>)
    requires at + |x| <= |s| && p + |y| <= |s| && (|y| > 0 ==> p == at + |x|)
    ensures at + |x + y| <= |s| && Splice(Splice(s, at, x), p, y) == Splice(s, at, x + y)
  {
    if y == [] {
      assert x + y == x;
      assert Splice(Splice(s, at, x), p, y) == Splice(s, at, x);
    } else {
      SpliceMore(s, at, x, y);
    }
  }

  lemma SliceJoin(s: seq<byte>, a: nat, n: nat, p: nat, m: nat)
    requires a + n <= |s| && p + m <= |s| && (m > 0 ==> p == a + n)
    ensures a + n + m <= |s| && s[a..a + n] + s[p..p + m] == s[a..a + n + m]
  {
    if m == 0 { assert s[p..p + m] == []; }
  }

  lemma DoneWriting(at: nat, done: nat, bytes: nat, disk0: seq<byte>, buf0: seq<byte>, p: nat)
    requires at + done <= |disk0| && done + bytes <= |buf0| && p + bytes <= |disk0| && (bytes > 0 ==> p == at + done)
    ensures Done(true, at, done + bytes, disk0, buf0,
            Splice(Splice(disk0, at, buf0[..done]), p, buf0[done..done + bytes]), buf0)
  {
    SpliceOn(disk0, at, buf0[..done], p, buf0[done..done + bytes]);
    SliceJoin(buf0, 0, done, done, bytes);
  }

  lemma DoneReading(at: nat, done: nat, bytes: nat, disk: seq<byte>, buf0: seq<byte>, p: nat)
    requires at + done <= |disk| && done + bytes <= |buf0| && p + bytes <= |disk| && (bytes > 0 ==> p == at + done)
    ensures Done(false, at, done + bytes, disk, buf0, disk,
            Splice(Splice(buf0, 0, disk[at..at + done]), done, disk[p..p + bytes]))
  {
    SpliceOn(buf0, 0, disk[at..at + done], done, disk[p..p + bytes]);
    SliceJoin(disk, at, done, p, bytes);
  }

  /** What a transfer of `bytes` bytes at byte `at` of the disk has done. */
  ghost predicate Done(write: bool, at: nat, bytes: nat, disk: seq<byte>, buf: seq<byte>, disk': seq<byte>,
      buf': seq<byte>) {
    && at + bytes <= |disk| && bytes <= |buf| && |disk'| == |disk|
    && if write then disk' == Splice(disk, at, buf[..bytes]) && buf' == buf
       else disk' == disk && buf' == Splice(buf, 0, disk[at..at + bytes])
  }
}
