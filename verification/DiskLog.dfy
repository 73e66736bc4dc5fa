/**
 The log at the end of the disk: strings are appended across sector borders, and a header at its beginning, rewritten
 with every string, holds the position.
 */
module DiskLog {
  import opened Base
  import opened Bits
  import FileIo

  const NR_SECTS_FOR_LOG := 2048
  /** The first byte behind the header, and the first of the last sector, which every call overwrites. */
  const LOG_START := 0x40
  const LAST_SECTOR := 1048064

  // ---------------------------------------------------------------- the header

  function Digit(d: nat): byte
    requires d < 10
  {
    48 + d as byte
  }

  /** i2a */
  function Decimal(n: nat): seq<byte> {
    if n < 10 then [Digit(n)] else Decimal(n / 10) + [Digit(n % 10)]
  }

  function Blanks(n: nat): seq<byte> {
    seq(n, _ => 32)
  }

  /** "%8d\n", blanks, and two line ends. */
  function Header(pos: nat): seq<byte>
    requires |Decimal(pos)| <= 8
  {
    Blanks(8 - |Decimal(pos)|) + Decimal(pos) + [10] + Blanks(22) + [10] + Blanks(31) + [10]
  }

  /** What a reader makes of the digits of a field, skipping blanks. */
  function ReadNumber(field: seq<byte>): nat {
    if field == [] then 0
    else
      var c := field[|field| - 1];
      if 48 <= c <= 57 then 10 * ReadNumber(field[..|field| - 1]) + (c - 48) as nat
      else ReadNumber(field[..|field| - 1])
  }

  lemma {:induction false} BlanksRead(n: nat)
    ensures ReadNumber(Blanks(n)) == 0
  {
    if n > 0 {
      assert Blanks(n)[..n - 1] == Blanks(n - 1);
      BlanksRead(n - 1);
    }
  }

  lemma DigitValue(d: nat)
    requires d < 10
    ensures 48 <= Digit(d) <= 57 && (Digit(d) - 48) as nat == d
  {
  }

  lemma {:induction false} DecimalReads(blanks: nat, n: nat)
    ensures ReadNumber(Blanks(blanks) + Decimal(n)) == n
  {
    var field := Blanks(blanks) + Decimal(n);
    if n < 10 {
      DigitValue(n);
      assert field[..|field| - 1] == Blanks(blanks);
      BlanksRead(blanks);
    } else {
      DigitValue(n % 10);
      assert field[..|field| - 1] == Blanks(blanks) + Decimal(n / 10);
      DecimalReads(blanks, n / 10);
    }
  }

  /** Positions inside the log have at most seven digits. */
  lemma {:induction false} DecimalLength(n: nat, k: nat)
    requires n < Power10(k) && k > 0
    ensures |Decimal(n)| <= k
  {
    if n >= 10 { DecimalLength(n / 10, k - 1); }
  }

  function Power10(k: nat): nat {
    if k == 0 then 1 else 10 * Power10(k - 1)
  }

  lemma HeaderFits(pos: nat)
    requires pos < 100000000
    ensures |Decimal(pos)| <= 8 && |Header(pos)| == LOG_START
  {
    assert Power10(2) == 100 && Power10(4) == 100 * Power10(2) && Power10(6) == 100 * Power10(4)
        && Power10(8) == 100 * Power10(6);
    DecimalLength(pos, 8);
  }

  /** The header tells where the next string goes. */
  lemma HeaderReadsBack(pos: nat)
    requires pos < 100000000
    ensures |Decimal(pos)| <= 8 && |Header(pos)| == LOG_START && ReadNumber(Header(pos)[..8]) == pos
  {
    HeaderFits(pos);
    assert Header(pos)[..8] == Blanks(8 - |Decimal(pos)|) + Decimal(pos);
    DecimalReads(8 - |Decimal(pos)|, pos);
  }

  /** The header is two lines of text: the position, right-aligned in eight columns, alone in its line but for blanks,
      and a line of blanks. */
  lemma HeaderLines(pos: nat)
    requires pos < 100000000
    ensures |Decimal(pos)| <= 8 && |Header(pos)| == 64
    ensures Header(pos)[8] == Header(pos)[31] == Header(pos)[63] == 10
    ensures forall i | 8 < i < 31 || 31 < i < 63 :: Header(pos)[i] == 32
    ensures forall i | 0 <= i < 8 :: Header(pos)[i] == 32 || 48 <= Header(pos)[i] <= 57
    ensures forall i, j | 0 <= i < j < 8 && Header(pos)[j] == 32 :: Header(pos)[i] == 32
    ensures Header(pos)[7] != 32
  {
    HeaderFits(pos);
    DecimalDigits(pos);
    var k := 8 - |Decimal(pos)|;
    forall i | 0 <= i < 8 ensures Header(pos)[i] == if i < k then 32 else Decimal(pos)[i - k] {
    }
  }

  lemma {:induction false} DecimalDigits(n: nat)
    ensures |Decimal(n)| > 0 && forall i | 0 <= i < |Decimal(n)| :: 48 <= Decimal(n)[i] <= 57
  {
    if n < 10 {
      DigitValue(n);
    } else {
      DecimalDigits(n / 10);
      DigitValue(n % 10);
    }
  }

  // ---------------------------------------------------------------- the log

  function Concat(strs: seq<seq<byte>>): seq<byte> {
    if strs == [] then [] else Concat(strs[..|strs| - 1]) + strs[|strs| - 1]
  }

  /** The position of a call: 0 stands for a log not yet begun. */
  function Begun(pos: nat): nat {
    if pos == 0 then LOG_START else pos
  }

  /** The disk after a call that logs `str` at pos, in a log that begins at byte `base`. */
  function Logged(disk: seq<byte>, base: nat, pos: nat, str: seq<byte>): (disk': seq<byte>)
    requires base + pos + |str| <= |disk| && base + LAST_SECTOR + SECTOR_SIZE <= |disk| && pos + |str| < 100000000
    ensures |disk'| == |disk|
  {
    WithHeader(FileIo.Splice(disk, base + pos, str), base, pos + |str|)
  }

  /** The header at the beginning of the log, and once more, padded with blanks, in its last sector. */
  function WithHeader(disk: seq<byte>, base: nat, pos: nat): (disk': seq<byte>)
    requires base + LAST_SECTOR + SECTOR_SIZE <= |disk| && pos < 100000000
    ensures |disk'| == |disk|
  {
    HeaderFits(pos);
    FileIo.Splice(FileIo.Splice(disk, base, Header(pos)),
                  base + LAST_SECTOR, Header(pos) + Blanks(SECTOR_SIZE - LOG_START))
  }

  /** The log area holds `all`, as far as it lies before the last sector. */
  ghost predicate HoldsText(disk: seq<byte>, base: nat, all: seq<byte>) {
    var n := Min(|all|, LAST_SECTOR - LOG_START);
    base + LAST_SECTOR + SECTOR_SIZE <= |disk| && disk[base + LOG_START..base + LOG_START + n] == all[..n]
  }

  /** The log holds the strings, and the header tells their end. */
  ghost predicate Holds(disk: seq<byte>, base: nat, strs: seq<seq<byte>>) {
    && HoldsText(disk, base, Concat(strs))
    && (strs != [] ==> ReadNumber(disk[base..base + 8]) == LOG_START + |Concat(strs)|)
  }

  lemma EmptyLog(disk: seq<byte>, base: nat)
    requires base + LAST_SECTOR + SECTOR_SIZE <= |disk|
    ensures Holds(disk, base, [])
  {
  }

  /** A call appends its string, in whatever sectors it falls, and disturbs nothing logged before. */
  lemma AppendHolds(disk: seq<byte>, base: nat, strs: seq<seq<byte>>, str: seq<byte>)
    requires Holds(disk, base, strs)
    requires var pos := LOG_START + |Concat(strs)|; base + pos + |str| <= |disk| && pos + |str| < 100000000
    ensures Holds(Logged(disk, base, LOG_START + |Concat(strs)|, str), base, strs + [str])
  {
    var pos := LOG_START + |Concat(strs)|;
    assert (strs + [str])[..|strs + [str]| - 1] == strs;
    TextAppended(disk, base, Concat(strs), str);
    HeaderTells(disk, base, pos, str);
  }

  /** The disk after a row of calls. */
  function LoggedAll(disk: seq<byte>, base: nat, strs: seq<seq<byte>>): (disk': seq<byte>)
    requires base + LOG_START + |Concat(strs)| <= |disk| && LOG_START + |Concat(strs)| < 100000000
    requires base + LAST_SECTOR + SECTOR_SIZE <= |disk|
    ensures |disk'| == |disk|
  {
    if strs == [] then disk
    else
      var front := strs[..|strs| - 1];
      Logged(LoggedAll(disk, base, front), base, LOG_START + |Concat(front)|, strs[|strs| - 1])
  }

  /** A call on the position that a row of calls returned, 0 before the first, makes the row one call longer. */
  lemma {:induction false} CallAfterCalls(disk: seq<byte>, base: nat, strs: seq<seq<byte>>, str: seq<byte>)
    requires base + 0x40 + |Concat(strs)| + |str| <= |disk| && 0x40 + |Concat(strs)| + |str| < 100000000
    requires base + LAST_SECTOR + SECTOR_SIZE <= |disk|
    ensures Concat(strs + [str]) == Concat(strs) + str
    ensures var pos := if strs == [] then 0 else 0x40 + |Concat(strs)|;
            && Begun(pos) == 0x40 + |Concat(strs)|
            && LoggedAll(disk, base, strs + [str]) == Logged(LoggedAll(disk, base, strs), base, Begun(pos), str)
  {
    var all := strs + [str];
    assert all[..|all| - 1] == strs && all[|all| - 1] == str;
  }

  /** After any row of calls the log is the concatenation of the strings. */
  lemma {:induction false} LogIsConcatenation(disk: seq<byte>, base: nat, strs: seq<seq<byte>>)
    requires base + LOG_START + |Concat(strs)| <= |disk| && LOG_START + |Concat(strs)| < 100000000
    requires base + LAST_SECTOR + SECTOR_SIZE <= |disk|
    ensures Holds(LoggedAll(disk, base, strs), base, strs)
  {
    if strs == [] {
      EmptyLog(disk, base);
    } else {
      var front, last := strs[..|strs| - 1], strs[|strs| - 1];
      assert strs == front + [last];
      LogIsConcatenation(disk, base, front);
      AppendHolds(LoggedAll(disk, base, front), base, front, last);
    }
  }

  lemma TextAppended(disk: seq<byte>, base: nat, was: seq<byte>, str: seq<byte>)
    requires HoldsText(disk, base, was)
    requires base + LOG_START + |was| + |str| <= |disk| && LOG_START + |was| + |str| < 100000000
    ensures HoldsText(Logged(disk, base, LOG_START + |was|, str), base, was + str)
  {
    var m, n := Min(|was|, LAST_SECTOR - LOG_START), Min(|was + str|, LAST_SECTOR - LOG_START);
    var got, want := Logged(disk, base, LOG_START + |was|, str)[base + LOG_START..base + LOG_START + n],
        (was + str)[..n];
    forall i | 0 <= i < n ensures got[i] == want[i] {
      ByteLogged(disk, base, LOG_START + |was|, str, LOG_START + i);
      ByteBefore(disk, base, was, i);
    }
  }

  lemma ByteBefore(disk: seq<byte>, base: nat, was: seq<byte>, i: nat)
    requires HoldsText(disk, base, was)
    ensures i < |was| && LOG_START + i < LAST_SECTOR ==> disk[base + LOG_START + i] == was[i]
  {
    var n := Min(|was|, LAST_SECTOR - LOG_START);
    if i < n { assert disk[base + LOG_START..base + LOG_START + n][i] == was[..n][i]; }
  }

  lemma HeaderTells(disk: seq<byte>, base: nat, pos: nat, str: seq<byte>)
    requires base + pos + |str| <= |disk| && base + LAST_SECTOR + SECTOR_SIZE <= |disk| && pos + |str| < 100000000
    ensures ReadNumber(Logged(disk, base, pos, str)[base..base + 8]) == pos + |str|
  {
    HeaderReadsBack(pos + |str|);
    HeaderWritten(disk, base, pos, str);
  }

  /** Byte x of the log, between header and last sector, after a call. */
  lemma ByteLogged(disk: seq<byte>, base: nat, pos: nat, str: seq<byte>, x: nat)
    requires base + pos + |str| <= |disk| && base + LAST_SECTOR + SECTOR_SIZE <= |disk| && pos + |str| < 100000000
    requires LOG_START <= x < LAST_SECTOR
    ensures Logged(disk, base, pos, str)[base + x] == if pos <= x < pos + |str| then str[x - pos] else disk[base + x]
  {
    HeaderKeeps(FileIo.Splice(disk, base + pos, str), base, pos + |str|, x);
    SpliceByte(disk, base + pos, str, base + x);
  }

  lemma SpliceByte(s: seq<byte>, at: nat, x: seq<byte>, i: nat)
    requires at + |x| <= |s| && i < |s|
    ensures FileIo.Splice(s, at, x)[i] == if at <= i < at + |x| then x[i - at] else s[i]
  {
  }

  lemma HeaderKeeps(disk: seq<byte>, base: nat, pos: nat, x: nat)
    requires base + LAST_SECTOR + SECTOR_SIZE <= |disk| && pos < 100000000 && LOG_START <= x < LAST_SECTOR
    ensures WithHeader(disk, base, pos)[base + x] == disk[base + x]
  {
    HeaderFits(pos);
    SpliceByte(disk, base, Header(pos), base + x);
    SpliceByte(FileIo.Splice(disk, base, Header(pos)),
               base + LAST_SECTOR, Header(pos) + Blanks(SECTOR_SIZE - LOG_START), base + x);
  }

  lemma HeaderWritten(disk: seq<byte>, base: nat, pos: nat, str: seq<byte>)
    requires base + pos + |str| <= |disk| && base + LAST_SECTOR + SECTOR_SIZE <= |disk| && pos + |str| < 100000000
    ensures |Decimal(pos + |str|)| <= 8 && |Header(pos + |str|)| == LOG_START
    ensures Logged(disk, base, pos, str)[base..base + 8] == Header(pos + |str|)[..8]
  {
    HeaderFits(pos + |str|);
    var got, want := Logged(disk, base, pos, str)[base..base + 8], Header(pos + |str|)[..8];
    forall i | 0 <= i < 8 ensures got[i] == want[i] {
    }
  }

  // ---------------------------------------------------------------- when the log loses text

  /** Byte x of the log lies behind the header and outside the last sector. */
  predicate Plain(x: nat) {
    LOG_START <= x && !(LAST_SECTOR <= x < LAST_SECTOR + SECTOR_SIZE)
  }

  /** What every call leaves in the last sector. */
  function LastSector(pos: nat): (s: seq<byte>)
    requires pos < 100000000
    ensures |s| == SECTOR_SIZE
  {
    HeaderFits(pos);
    Header(pos) + Blanks(SECTOR_SIZE - LOG_START)
  }

  lemma PlainLogged(disk: seq<byte>, base: nat, pos: nat, str: seq<byte>, x: nat)
    requires base + pos + |str| <= |disk| && base + LAST_SECTOR + SECTOR_SIZE <= |disk| && pos + |str| < 100000000
    requires Plain(x) && base + x < |disk|
    ensures Logged(disk, base, pos, str)[base + x] == if pos <= x < pos + |str| then str[x - pos] else disk[base + x]
  {
    PlainHeader(FileIo.Splice(disk, base + pos, str), base, pos + |str|, x);
    SpliceByte(disk, base + pos, str, base + x);
  }

  lemma PlainHeader(text: seq<byte>, base: nat, pos: nat, x: nat)
    requires base + LAST_SECTOR + SECTOR_SIZE <= |text| && pos < 100000000 && Plain(x) && base + x < |text|
    ensures WithHeader(text, base, pos)[base + x] == text[base + x]
  {
    HeaderFits(pos);
    SpliceByte(text, base, Header(pos), base + x);
    SpliceByte(FileIo.Splice(text, base, Header(pos)), base + LAST_SECTOR, LastSector(pos), base + x);
  }

  /** Behind the header and outside the last sector the log holds `all` ... */
  ghost predicate HoldsPlain(disk: seq<byte>, base: nat, all: seq<byte>)
    requires base + LOG_START + |all| <= |disk|
  {
    forall i | 0 <= i < |all| && Plain(LOG_START + i) :: disk[base + LOG_START + i] == all[i]
  }

  /** ... and there a call changes the bytes of its string and no others. */
  ghost predicate Appended(disk: seq<byte>, disk': seq<byte>, base: nat, pos: nat, str: seq<byte>) {
    && |disk'| == |disk|
    && forall x: nat | Plain(x) && base + x < |disk| ::
         disk'[base + x] == if pos <= x < pos + |str| then str[x - pos] else disk[base + x]
  }

  lemma AppendedHolds(disk: seq<byte>, disk': seq<byte>, base: nat, front: seq<byte>, last: seq<byte>)
    requires base + LOG_START + |front| + |last| <= |disk|
    requires HoldsPlain(disk, base, front) && Appended(disk, disk', base, LOG_START + |front|, last)
    ensures HoldsPlain(disk', base, front + last)
  {
    forall i | 0 <= i < |front + last| && Plain(LOG_START + i)
      ensures disk'[base + LOG_START + i] == (front + last)[i]
    {
      assert base + (LOG_START + i) < |disk|;
    }
  }

  lemma LoggedAppends(disk: seq<byte>, base: nat, pos: nat, str: seq<byte>)
    requires base + pos + |str| <= |disk| && base + LAST_SECTOR + SECTOR_SIZE <= |disk| && pos + |str| < 100000000
    ensures Appended(disk, Logged(disk, base, pos, str), base, pos, str)
  {
    forall x: nat | Plain(x) && base + x < |disk|
      ensures Logged(disk, base, pos, str)[base + x] == if pos <= x < pos + |str| then str[x - pos] else disk[base + x]
    {
      PlainLogged(disk, base, pos, str, x);
    }
  }

  /** Behind the header and outside the last sector every byte of every string is in its place. */
  lemma {:induction false} PlainHolds(disk: seq<byte>, base: nat, strs: seq<seq<byte>>)
    requires base + LOG_START + |Concat(strs)| <= |disk| && LOG_START + |Concat(strs)| < 100000000
    requires base + LAST_SECTOR + SECTOR_SIZE <= |disk|
    ensures HoldsPlain(LoggedAll(disk, base, strs), base, Concat(strs))
  {
    if strs != [] {
      var front, last := strs[..|strs| - 1], strs[|strs| - 1];
      var before := LoggedAll(disk, base, front);
      PlainHolds(disk, base, front);
      LoggedAppends(before, base, LOG_START + |Concat(front)|, last);
      AppendedHolds(before, LoggedAll(disk, base, strs), base, Concat(front), last);
    }
  }

  /** The last sector holds the header and blanks. */
  lemma LastSectorIs(disk: seq<byte>, base: nat, strs: seq<seq<byte>>)
    requires base + LOG_START + |Concat(strs)| <= |disk| && LOG_START + |Concat(strs)| < 100000000
    requires base + LAST_SECTOR + SECTOR_SIZE <= |disk| && strs != []
    ensures LoggedAll(disk, base, strs)[base + LAST_SECTOR..base + LAST_SECTOR + SECTOR_SIZE]
            == LastSector(LOG_START + |Concat(strs)|)
  {
    var front, last := strs[..|strs| - 1], strs[|strs| - 1];
    HeaderLast(FileIo.Splice(LoggedAll(disk, base, front), base + LOG_START + |Concat(front)|, last),
               base, LOG_START + |Concat(strs)|);
  }

  lemma HeaderLast(disk: seq<byte>, base: nat, pos: nat)
    requires base + LAST_SECTOR + SECTOR_SIZE <= |disk| && pos < 100000000
    ensures WithHeader(disk, base, pos)[base + LAST_SECTOR..base + LAST_SECTOR + SECTOR_SIZE] == LastSector(pos)
  {
    HeaderFits(pos);
    WrittenBack(FileIo.Splice(disk, base, Header(pos)), base + LAST_SECTOR, LastSector(pos));
  }

  /** The part of the text that falls into the last sector. */
  function Tail(all: seq<byte>): seq<byte> {
    all[Min(|all|, LAST_SECTOR - LOG_START)..Min(|all|, LAST_SECTOR - LOG_START + SECTOR_SIZE)]
  }

  /** It is what every call writes there anyway. */
  predicate TailAgrees(all: seq<byte>)
    requires LOG_START + |all| < 100000000
  {
    Tail(all) <= LastSector(LOG_START + |all|)
  }

  lemma TailAt(all: seq<byte>, i: nat)
    requires i < |all| && !Plain(LOG_START + i)
    ensures 0 <= LOG_START + i - LAST_SECTOR < |Tail(all)| && all[i] == Tail(all)[LOG_START + i - LAST_SECTOR]
  {
  }

  lemma ByteOfSlice(s: seq<byte>, at: nat, n: nat, i: nat)
    requires at + n <= |s| && i < n
    ensures s[at..at + n][i] == s[at + i]
  {
  }

  /** The log holds all that was logged exactly when the text ends before the last sector or its tail happens to be what
      every call writes there. */
  lemma LogExact(disk: seq<byte>, base: nat, strs: seq<seq<byte>>)
    requires base + LOG_START + |Concat(strs)| <= |disk| && LOG_START + |Concat(strs)| < 100000000
    requires base + LAST_SECTOR + SECTOR_SIZE <= |disk| && strs != []
    ensures var all := Concat(strs); var got := LoggedAll(disk, base, strs)[base + LOG_START..base + LOG_START + |all|];
            && (got == all <==> TailAgrees(all))
            && (LOG_START + |all| <= LAST_SECTOR ==> got == all)
  {
    LastSectorIs(disk, base, strs);
    PlainHolds(disk, base, strs);
    TailDecides(LoggedAll(disk, base, strs), base, Concat(strs), LastSector(LOG_START + |Concat(strs)|));
  }

  lemma TailDecides(disk: seq<byte>, base: nat, all: seq<byte>, sect: seq<byte>)
    requires base + LOG_START + |all| <= |disk| && base + LAST_SECTOR + SECTOR_SIZE <= |disk| && |sect| == SECTOR_SIZE
    requires disk[base + LAST_SECTOR..base + LAST_SECTOR + SECTOR_SIZE] == sect
    requires HoldsPlain(disk, base, all)
    ensures disk[base + LOG_START..base + LOG_START + |all|] == all <==> Tail(all) <= sect
  {
    var got, tail := disk[base + LOG_START..base + LOG_START + |all|], Tail(all);
    forall i | 0 <= i < |all| && !Plain(LOG_START + i) ensures 0 <= LOG_START + i - LAST_SECTOR < |tail|
      ensures got[i] == sect[LOG_START + i - LAST_SECTOR] && all[i] == tail[LOG_START + i - LAST_SECTOR]
    {
      TailAt(all, i);
      ByteOfSlice(disk, base + LAST_SECTOR, SECTOR_SIZE, LOG_START + i - LAST_SECTOR);
    }
    if tail <= sect {
      forall i | 0 <= i < |all| ensures got[i] == all[i] {
        assert Plain(LOG_START + i) ==> got[i] == disk[base + LOG_START + i];
      }
    }
    if got == all {
      forall j | 0 <= j < |tail| ensures tail[j] == sect[j] {
        assert !Plain(LOG_START + (LAST_SECTOR - LOG_START + j));
      }
    }
  }

  function Repeated(n: nat, s: seq<byte>): seq<seq<byte>> {
    seq(n, _ => s)
  }

  lemma {:induction false} ConcatRepeated(n: nat, s: seq<byte>)
    ensures |Concat(Repeated(n, s))| == n * |s|
  {
    if n > 0 {
      ConcatRepeated(n - 1, s);
      assert Repeated(n, s)[..n - 1] == Repeated(n - 1, s);
    }
  }

  /** A log that loses text: 1048 strings of a thousand letters fill it up to the last sector, one letter more is
      lost. */
  lemma LogLoses(disk: seq<byte>, base: nat)
    requires base + LAST_SECTOR + SECTOR_SIZE <= |disk|
    ensures var strs := Repeated(1048, seq(1000, _ => 120)) + [[120]]; var all := Concat(strs);
            && LOG_START + |all| == LAST_SECTOR + 1
            && LoggedAll(disk, base, strs)[base + LOG_START..base + LOG_START + |all|] != all
  {
    var line: seq<byte>, x: seq<byte> := seq(1000, _ => 120), [120];
    var many := Repeated(1048, line);
    var strs := many + [x];
    ConcatRepeated(1048, line);
    assert strs[..|strs| - 1] == many && strs[|strs| - 1] == x;
    var all := Concat(strs);
    assert Tail(all) == [120];
    FirstByteBlank(LAST_SECTOR + 1);
    LogExact(disk, base, strs);
  }

  /** Seven digits leave the first place of the header blank. */
  lemma FirstByteBlank(pos: nat)
    requires pos < 10000000
    ensures LastSector(pos)[0] == 32
  {
    assert Power10(2) == 100 && Power10(4) == 100 * Power10(2) && Power10(6) == 100 * Power10(4)
        && Power10(7) == 10 * Power10(6);
    DecimalLength(pos, 7);
  }

  // ---------------------------------------------------------------- the code

  class Log {
    const dev: FileIo.DataDisk
    /** nr_log_blk0_nr */
    const blk0: nat
    /** The static variable of disklog. */
    var pos: nat

    constructor (dev: FileIo.DataDisk, blk0: nat)
      ensures this.dev == dev && this.blk0 == blk0 && pos == 0
    {
      this.dev, this.blk0, pos := dev, blk0, 0;
    }

    ghost predicate Room(len: nat)
      reads this, dev
    {
      && dev.Valid() && |dev.disk| % SECTOR_SIZE == 0 && SECTOR_SIZE * blk0 + LAST_SECTOR + SECTOR_SIZE <= |dev.disk|
      && SECTOR_SIZE * blk0 + Begun(pos) + len <= |dev.disk| && Begun(pos) + len < 100000000
    }

    /** memcpy into fsbuf */
    method Fill(off: nat, x: seq<byte>)
      requires dev.Valid() && off + |x| <= FSBUF_SIZE
      modifies dev.fsbuf
      ensures dev.fsbuf[..] == FileIo.Splice(old(dev.fsbuf[..]), off, x)
    {
      ghost var before := dev.fsbuf[..];
      for k := 0 to |x|
        invariant forall i | 0 <= i < dev.fsbuf.Length ::
                    dev.fsbuf[i] == if off <= i < off + k then x[i - off] else before[i]
      {
        dev.fsbuf[off + k] := x[k];
      }
    }

    /** Reads a sector, writes x over its bytes from off on, and writes it back. */
    method Patch(sect: nat, off: nat, x: seq<byte>)
      requires dev.Valid() && off + |x| <= SECTOR_SIZE && SECTOR_SIZE * sect + SECTOR_SIZE <= |dev.disk|
      modifies dev`disk, dev.fsbuf
      ensures dev.disk == FileIo.Splice(old(dev.disk), SECTOR_SIZE * sect + off, x)
      ensures dev.fsbuf[..SECTOR_SIZE] == dev.disk[SECTOR_SIZE * sect..SECTOR_SIZE * sect + SECTOR_SIZE]
    {
      dev.DevRead(SECTOR_SIZE * sect, SECTOR_SIZE);
      FileIo.ReadModifyWrite(dev.disk, SECTOR_SIZE * sect, SECTOR_SIZE, dev.fsbuf[..], off, x);
      Fill(off, x);
      dev.DevWrite(SECTOR_SIZE * sect, SECTOR_SIZE);
      WrittenBack(old(dev.disk), SECTOR_SIZE * sect, dev.fsbuf[..SECTOR_SIZE]);
    }

    /** As much as fits into one sector. */
    method AppendPart(logstr: seq<byte>, p: nat, sectNr: nat, bytesLeft: nat, ghost at: nat, ghost disk0: seq<byte>)
        returns (bytes: nat)
      requires dev.Valid() && |dev.disk| % SECTOR_SIZE == 0
               && SECTOR_SIZE * blk0 + pos + bytesLeft <= |dev.disk| == |disk0|
      requires p + bytesLeft == |logstr| && bytesLeft > 0 && sectNr == blk0 + pos / SECTOR_SIZE
               && at + p == SECTOR_SIZE * blk0 + pos
      requires dev.disk == FileIo.Splice(disk0, at, logstr[..p])
      modifies dev`disk, dev.fsbuf
      ensures 0 < bytes <= bytesLeft && dev.disk == FileIo.Splice(disk0, at, logstr[..p + bytes])
      ensures bytes < bytesLeft ==> sectNr + 1 == blk0 + (pos + bytes) / SECTOR_SIZE
    {
      var off := pos % SECTOR_SIZE;
      bytes := Min(bytesLeft, SECTOR_SIZE - off);
      Where(pos, bytes, blk0, |dev.disk|);
      Patch(sectNr, off, logstr[p..p + bytes]);
      FileIo.SpliceMore(disk0, at, logstr[..p], logstr[p..p + bytes]);
      assert logstr[..p] + logstr[p..p + bytes] == logstr[..p + bytes];
    }

    method Append(logstr: seq<byte>)
      requires Room(|logstr|) && pos > 0
      modifies this`pos, dev`disk, dev.fsbuf
      ensures pos == old(pos) + |logstr|
      ensures dev.disk == FileIo.Splice(old(dev.disk), SECTOR_SIZE * blk0 + old(pos), logstr)
    {
      var bytesLeft := |logstr|;
      var sectNr := blk0 + pos / SECTOR_SIZE;
      var p := 0;
      assert FileIo.Splice(dev.disk, SECTOR_SIZE * blk0 + pos, logstr[..0]) == dev.disk;
      while bytesLeft > 0
        invariant 0 <= p <= |logstr| && bytesLeft == |logstr| - p && pos == old(pos) + p
        invariant (bytesLeft > 0 ==> sectNr == blk0 + pos / SECTOR_SIZE) && |dev.disk| == |old(dev.disk)|
        invariant dev.disk == FileIo.Splice(old(dev.disk), SECTOR_SIZE * blk0 + old(pos), logstr[..p])
      {
        var bytes := AppendPart(logstr, p, sectNr, bytesLeft, SECTOR_SIZE * blk0 + old(pos), old(dev.disk));
        bytesLeft := bytesLeft - bytes;
        sectNr := sectNr + 1;
        pos := pos + bytes;
        p := p + bytes;
      }
      assert logstr[..p] == logstr;
    }

    method WriteHeader()
      requires Room(0) && pos > 0
      modifies dev`disk, dev.fsbuf
      ensures dev.disk == WithHeader(old(dev.disk), SECTOR_SIZE * blk0, pos)
    {
      HeaderFits(pos);
      Patch(blk0, 0, Header(pos));
      FileIo.SpliceAt(old(dev.disk), SECTOR_SIZE * blk0, Header(pos));
      Fill(LOG_START, Blanks(SECTOR_SIZE - LOG_START));
      assert dev.fsbuf[..SECTOR_SIZE] == Header(pos) + Blanks(SECTOR_SIZE - LOG_START);
      dev.DevWrite(SECTOR_SIZE * (blk0 + NR_SECTS_FOR_LOG - 1), SECTOR_SIZE);
    }

    method DiskLog(logstr: seq<byte>) returns (r: nat)
      requires Room(|logstr|)
      modifies this`pos, dev`disk, dev.fsbuf
      ensures r == pos == Begun(old(pos)) + |logstr|
      ensures dev.disk == Logged(old(dev.disk), SECTOR_SIZE * blk0, Begun(old(pos)), logstr)
    {
      if pos == 0 {
        pos := 0x40;
      }
      Write(logstr);
      r := pos;
    }

    /** The string behind what is there, and then the header. */
    method Write(logstr: seq<byte>)
      requires Room(|logstr|) && pos > 0
      modifies this`pos, dev`disk, dev.fsbuf
      ensures pos == old(pos) + |logstr|
      ensures dev.disk == Logged(old(dev.disk), SECTOR_SIZE * blk0, old(pos), logstr)
    {
      Append(logstr);
      WriteHeader();
    }
  }

  lemma WrittenBack(disk: seq<byte>, at: nat, x: seq<byte>)
    requires at + |x| <= |disk|
    ensures FileIo.Splice(disk, at, x)[at..at + |x|] == x
  {
    FileIo.SpliceAt(disk, at, x);
  }

  /** The sector of position pos, and where the next piece begins. */
  lemma Where(pos: nat, bytes: nat, blk0: nat, size: nat)
    requires size % SECTOR_SIZE == 0 && 0 < bytes <= SECTOR_SIZE - pos % SECTOR_SIZE
             && SECTOR_SIZE * blk0 + pos + bytes <= size
    ensures SECTOR_SIZE * (blk0 + pos / SECTOR_SIZE) + SECTOR_SIZE <= size
    ensures SECTOR_SIZE * (blk0 + pos / SECTOR_SIZE) + pos % SECTOR_SIZE == SECTOR_SIZE * blk0 + pos
    ensures bytes == SECTOR_SIZE - pos % SECTOR_SIZE ==> (pos + bytes) / SECTOR_SIZE == pos / SECTOR_SIZE + 1
  {
  }
}
