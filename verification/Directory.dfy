/**
 The root directory: slots of an inode number and a twelve-byte name, thirty-two to a sector.
 Looking up, adding and removing names, proved to be operations on a finite map from names to inode numbers.
 */
module Directory {
  import opened Base

  const MAX_FILENAME_LEN := 12
  const DIR_ENTRY_SIZE := 16
  const PER_SECTOR := 32
  const INVALID_INODE := 0
  const NUL: char := '\0'

  type Name = s: seq<char> | |s| == MAX_FILENAME_LEN
    witness [NUL, NUL, NUL, NUL, NUL, NUL, NUL, NUL, NUL, NUL, NUL, NUL]

  datatype Entry = Entry(inodeNr: nat, name: Name)

  const ZERO_NAME: Name := [NUL, NUL, NUL, NUL, NUL, NUL, NUL, NUL, NUL, NUL, NUL, NUL]
  const ZERO_ENTRY := Entry(INVALID_INODE, ZERO_NAME)

  /** Names the directory can hold: one to eleven characters; longer ones overrun the name buffers. */
  predicate GoodName(s: seq<char>) {
    0 < |s| < MAX_FILENAME_LEN && NUL !in s && '/' !in s
  }

  function Padded(s: seq<char>): Name
    requires |s| <= MAX_FILENAME_LEN
  {
    s + seq(MAX_FILENAME_LEN - |s|, _ => NUL)
  }

  lemma PaddedInjective(s: seq<char>, t: seq<char>)
    requires |s| <= MAX_FILENAME_LEN && |t| <= MAX_FILENAME_LEN && NUL !in s && NUL !in t
    ensures Padded(s) == Padded(t) <==> s == t
  {
    if |s| < |t| {
      assert Padded(t)[|s|] == t[|s|] && t[|s|] in t && Padded(s)[|s|] == NUL;
    } else if |t| < |s| {
      assert Padded(s)[|t|] == s[|t|] && s[|t|] in s && Padded(t)[|t|] == NUL;
    } else {
      assert s == Padded(s)[..|s|] && t == Padded(t)[..|t|];
    }
  }

  /** strcpy into a name field: the characters and a NUL; the rest of the field stays. */
  function Written(field: Name, s: seq<char>): Name
    requires |s| < MAX_FILENAME_LEN
  {
    s + [NUL] + field[|s| + 1..]
  }

  // ---------------------------------------------------------------- looking up

  /** How many slots search_file looks at when the size says n entries: one too many unless a sector ends there. */
  function Limit(n: nat): (l: nat)
    ensures n <= l
  {
    if n % PER_SECTOR == 0 then n else n + 1
  }

  function SearchFrom(slots: seq<Entry>, key: Name, i: nat, lim: nat): nat
    requires i <= lim <= |slots|
    decreases lim - i
  {
    if i == lim then INVALID_INODE
    else if slots[i].name == key then slots[i].inodeNr
    else SearchFrom(slots, key, i + 1, lim)
  }

  /** The inode number search_file finds for a name. */
  function Search(slots: seq<Entry>, n: nat, name: seq<char>): nat
    requires Limit(n) <= |slots| && |name| <= MAX_FILENAME_LEN
  {
    SearchFrom(slots, Padded(name), 0, Limit(n))
  }

  lemma {:induction false} SearchHit(slots: seq<Entry>, key: Name, i: nat, lim: nat, k: nat)
    requires i <= k < lim <= |slots| && slots[k].name == key
    requires forall j | i <= j < lim && slots[j].name == key :: j == k
    ensures SearchFrom(slots, key, i, lim) == slots[k].inodeNr
    decreases lim - i
  {
    if i < k { SearchHit(slots, key, i + 1, lim, k); }
  }

  lemma {:induction false} SearchMiss(slots: seq<Entry>, key: Name, i: nat, lim: nat)
    requires i <= lim <= |slots| && forall j | i <= j < lim :: slots[j].name != key
    ensures SearchFrom(slots, key, i, lim) == INVALID_INODE
    decreases lim - i
  {
    if i < lim { SearchMiss(slots, key, i + 1, lim); }
  }

  // ---------------------------------------------------------------- the shape of a directory

  predicate LiveAt(slots: seq<Entry>, i: int) {
    0 <= i < |slots| && slots[i].inodeNr != INVALID_INODE
  }

  ghost predicate NamedAt(slots: seq<Entry>, i: int, s: seq<char>) {
    LiveAt(slots, i) && GoodName(s) && slots[i].name == Padded(s)
  }

  ghost predicate HasName(slots: seq<Entry>, i: int) {
    exists s :: NamedAt(slots, i, s)
  }

  /** Free slots are all zero. */
  ghost predicate FreeZero(slots: seq<Entry>) {
    forall i | 0 <= i < |slots| && !LiveAt(slots, i) :: slots[i].name == ZERO_NAME
  }

  /** Free slots are all zero, also those beyond the n entries; names and inode numbers are not repeated. */
  ghost predicate DirOk(slots: seq<Entry>, n: nat) {
    && Limit(n) <= |slots| && |slots| % PER_SECTOR == 0
    && FreeZero(slots)
    && (forall i | LiveAt(slots, i) :: i < n && HasName(slots, i))
    && (forall i, j | LiveAt(slots, i) && LiveAt(slots, j) && i != j ::
          slots[i].name != slots[j].name && slots[i].inodeNr != slots[j].inodeNr)
  }

  /** The inode numbers in use. */
  ghost function Used(slots: seq<Entry>): set<nat> {
    set i | 0 <= i < |slots| && LiveAt(slots, i) :: slots[i].inodeNr
  }

  lemma KeyIsNotZero(s: seq<char>)
    requires GoodName(s)
    ensures Padded(s) != ZERO_NAME
  {
    assert Padded(s)[0] == s[0] && s[0] in s;
  }

  /** search_file is the map: it finds ino under a name exactly when some slot binds the name to ino. */
  lemma SearchExact(slots: seq<Entry>, n: nat, name: seq<char>)
    requires DirOk(slots, n) && GoodName(name)
    ensures Search(slots, n, name) != INVALID_INODE <==> exists i :: NamedAt(slots, i, name)
    ensures forall i | NamedAt(slots, i, name) :: Search(slots, n, name) == slots[i].inodeNr
  {
    KeyIsNotZero(name);
    var key := Padded(name);
    if i :| NamedAt(slots, i, name) {
      SearchHit(slots, key, 0, Limit(n), i);
    } else {
      forall j | 0 <= j < Limit(n) ensures slots[j].name != key {
        assert slots[j].name == key ==> NamedAt(slots, j, name);
      }
      SearchMiss(slots, key, 0, Limit(n));
    }
  }

  /** search_file looks at one slot behind the last entry, unless a sector ends there. */
  lemma OneTooMany(slots: seq<Entry>, n: nat, name: seq<char>)
    requires n < |slots| && GoodName(name) && slots[n].name == Padded(name)
    requires Limit(n) <= |slots| && forall i | 0 <= i < n :: slots[i].name != Padded(name)
    ensures Search(slots, n, name) == if n % 32 == 0 then 0 else slots[n].inodeNr
  {
    if n % 32 == 0 {
      SearchMiss(slots, Padded(name), 0, n);
    } else {
      SearchHit(slots, Padded(name), 0, n + 1, n);
    }
  }

  // ---------------------------------------------------------------- adding a name

  /** The slot new_dir_entry takes: the first free one among the n, or the next. */
  function Place(slots: seq<Entry>, n: nat, i: nat): (e: nat)
    requires i <= n <= |slots|
    ensures i <= e <= n && (e < n ==> slots[e].inodeNr == INVALID_INODE)
    ensures e == n ==> forall k | i <= k < n :: slots[k].inodeNr != INVALID_INODE
    decreases n - i
  {
    if i == n || slots[i].inodeNr == INVALID_INODE then i else Place(slots, n, i + 1)
  }

  function Added(slots: seq<Entry>, n: nat, ino: nat, name: seq<char>): (seq<Entry>, nat)
    requires n < |slots| && |name| < MAX_FILENAME_LEN
  {
    var e := Place(slots, n, 0);
    (slots[e := Entry(ino, Written(slots[e].name, name))], if e == n then n + 1 else n)
  }

  /** The new name is found, every other lookup is unchanged, and the directory stays in shape. */
  lemma AddExact(slots: seq<Entry>, n: nat, ino: nat, name: seq<char>)
    requires DirOk(slots, n) && n < |slots| && GoodName(name) && Search(slots, n, name) == INVALID_INODE
    requires ino != INVALID_INODE && ino !in Used(slots)
    ensures var (slots', n') := Added(slots, n, ino, name);
            && DirOk(slots', n') && Used(slots') == Used(slots) + {ino} && Search(slots', n', name) == ino
            && forall other | GoodName(other) && other != name :: Search(slots', n', other) == Search(slots, n, other)
  {
    var (slots', n') := Added(slots, n, ino, name);
    var e := Place(slots, n, 0);
    AddKeepsShape(slots, n, ino, name);
    assert NamedAt(slots', e, name);
    SearchExact(slots', n', name);
    forall other | GoodName(other) && other != name ensures Search(slots', n', other) == Search(slots, n, other) {
      SearchExact(slots, n, other);
      SearchExact(slots', n', other);
      assert !NamedAt(slots', e, other) by {
        PaddedInjective(other, name);
      }
      SameBindings(slots, slots', e, other);
    }
  }

  /** The field is zero behind the first n characters and the NUL that strcpy writes. */
  predicate TailClear(field: Name, n: nat) {
    forall j | n < j < MAX_FILENAME_LEN :: field[j] == NUL
  }

  lemma WrittenIs(field: Name, s: seq<char>)
    requires |s| < MAX_FILENAME_LEN
    ensures Written(field, s) == Padded(s) <==> TailClear(field, |s|)
  {
    var w, p := Written(field, s), Padded(s);
    forall j | |s| < j < MAX_FILENAME_LEN ensures w[j] == field[j] && p[j] == NUL {
    }
    assert forall j | 0 <= j < |s| :: w[j] == p[j];
    assert w[|s|] == p[|s|] == NUL;
  }

  /** In a directory in any shape, a new name is found exactly when no longer old name is left in its slot, which may be
      one in use behind the end. */
  lemma AddFound(slots: seq<Entry>, n: nat, ino: nat, name: seq<char>)
    requires FreeZero(slots) && n < |slots| && Limit(n) <= |slots| && GoodName(name)
    requires Search(slots, n, name) == INVALID_INODE && ino != INVALID_INODE
    requires forall i | LiveAt(slots, i) :: slots[i].inodeNr != ino
    ensures var (slots', n') := Added(slots, n, ino, name);
            Limit(n') <= |slots'| ==>
              (Search(slots', n', name) == ino <==> TailClear(slots[Place(slots, n, 0)].name, |name|))
  {
    var (slots', n') := Added(slots, n, ino, name);
    var e, key := Place(slots, n, 0), Padded(name);
    WrittenIs(slots[e].name, name);
    KeyIsNotZero(name);
    NoneNamed(slots, key, 0, Limit(n));
    if Limit(n') <= |slots'| {
      if slots'[e].name == key {
        SearchFirst(slots', key, 0, Limit(n'), e);
      } else {
        SearchOther(slots', key, 0, Limit(n'), e, ino);
      }
    }
  }

  /** The file of three letters that lies behind the end leaves its last letter behind the new name, which is not
      found. */
  lemma NewNameLost(slots: seq<Entry>, ino: nat)
    requires FreeZero(slots) && |slots| == 2 * PER_SECTOR && (forall i | 0 <= i < 6 :: LiveAt(slots, i))
    requires slots[6] == Entry(7, Padded("ccc")) && Search(slots, 6, "e") == INVALID_INODE
    requires ino != INVALID_INODE && forall i | LiveAt(slots, i) :: slots[i].inodeNr != ino
    ensures var (slots', n') := Added(slots, 6, ino, "e");
            n' == 7 && slots'[6].inodeNr == ino && Search(slots', n', "e") != ino
  {
    AddFound(slots, 6, ino, "e");
    assert slots[6].name[2] == 'c';
  }

  /** Where a name is not found, no slot in use has it. */
  lemma {:induction false} NoneNamed(slots: seq<Entry>, key: Name, i: nat, lim: nat)
    requires i <= lim <= |slots| && FreeZero(slots) && key != ZERO_NAME
    requires SearchFrom(slots, key, i, lim) == INVALID_INODE
    ensures forall j | i <= j < lim :: slots[j].name != key
    decreases lim - i
  {
    if i < lim {
      assert slots[i].name == key ==> LiveAt(slots, i);
      NoneNamed(slots, key, i + 1, lim);
    }
  }

  lemma {:induction false} SearchFirst(slots: seq<Entry>, key: Name, i: nat, lim: nat, e: nat)
    requires i <= e < lim <= |slots| && slots[e].name == key && forall j | i <= j < e :: slots[j].name != key
    ensures SearchFrom(slots, key, i, lim) == slots[e].inodeNr
    decreases lim - i
  {
    if i < e { SearchFirst(slots, key, i + 1, lim, e); }
  }

  /** A search that does not stop at e does not find the number that only e holds. */
  lemma {:induction false} SearchOther(slots: seq<Entry>, key: Name, i: nat, lim: nat, e: nat, ino: nat)
    requires i <= lim <= |slots| && e < |slots| && slots[e].name != key && ino != INVALID_INODE
    requires forall j | 0 <= j < |slots| && j != e :: slots[j].inodeNr != ino
    ensures SearchFrom(slots, key, i, lim) != ino
    decreases lim - i
  {
    if i < lim && slots[i].name != key { SearchOther(slots, key, i + 1, lim, e, ino); }
  }

  /** Changing a slot that binds a name neither before nor after leaves its binding alone. */
  lemma SameBindings(slots: seq<Entry>, slots': seq<Entry>, e: nat, name: seq<char>)
    requires |slots'| == |slots| && forall i | 0 <= i < |slots| && i != e :: slots'[i] == slots[i]
    requires !NamedAt(slots, e, name) && !NamedAt(slots', e, name)
    ensures forall i :: NamedAt(slots, i, name) <==> NamedAt(slots', i, name)
  {
  }

  lemma AddKeepsShape(slots: seq<Entry>, n: nat, ino: nat, name: seq<char>)
    requires DirOk(slots, n) && n < |slots| && GoodName(name) && Search(slots, n, name) == INVALID_INODE
    requires ino != INVALID_INODE && ino !in Used(slots)
    ensures var (slots', n') := Added(slots, n, ino, name);
            DirOk(slots', n') && Used(slots') == Used(slots) + {ino} && slots'[Place(slots, n, 0)].name == Padded(name)
  {
    var (slots', n') := Added(slots, n, ino, name);
    var e := Place(slots, n, 0);
    assert !LiveAt(slots, e);
    assert slots'[e].name == Padded(name);
    SearchExact(slots, n, name);
    assert NamedAt(slots', e, name);
    forall i | LiveAt(slots', i) ensures i < n' && HasName(slots', i) {
      if i != e {
        assert LiveAt(slots, i);
        var s :| NamedAt(slots, i, s);
        assert NamedAt(slots', i, s);
      }
    }
    forall i | LiveAt(slots, i) ensures slots[i].name != Padded(name) && slots[i].inodeNr != ino {
      assert slots[i].name == Padded(name) ==> NamedAt(slots, i, name);
      assert slots[i].inodeNr in Used(slots);
    }
    forall i, j | LiveAt(slots', i) && LiveAt(slots', j) && i != j
      ensures slots'[i].name != slots'[j].name && slots'[i].inodeNr != slots'[j].inodeNr
    {
      assert i != e ==> LiveAt(slots, i);
      assert j != e ==> LiveAt(slots, j);
    }
    assert slots'[e].inodeNr in Used(slots');
    forall x ensures x in Used(slots') <==> x in Used(slots) + {ino} {
      if x in Used(slots) {
        var i :| 0 <= i < |slots| && LiveAt(slots, i) && slots[i].inodeNr == x;
        assert LiveAt(slots', i) && slots'[i].inodeNr == x;
      }
    }
  }

  // ---------------------------------------------------------------- removing a name

  /** The slot among the n that holds inode ino, or n. */
  function SlotOf(slots: seq<Entry>, n: nat, ino: nat, i: nat): (e: nat)
    requires i <= n <= |slots|
    ensures i <= e <= n && (e < n ==> slots[e].inodeNr == ino)
    ensures forall k | i <= k < e :: slots[k].inodeNr != ino
    decreases n - i
  {
    if i == n || slots[i].inodeNr == ino then i else SlotOf(slots, n, ino, i + 1)
  }

  /** How many of the first e slots are in use. */
  function LiveCount(slots: seq<Entry>, e: nat): (c: nat)
    requires e <= |slots|
    ensures c <= e
  {
    if e == 0 then 0 else LiveCount(slots, e - 1) + (if LiveAt(slots, e - 1) then 1 else 0)
  }

  /** The slots and the number of entries after do_unlink; when the last entry goes, the directory shrinks to the
      number of live entries before it. */
  function Removed(slots: seq<Entry>, n: nat, ino: nat): (seq<Entry>, nat)
    requires n <= |slots| && SlotOf(slots, n, ino, 0) < n
  {
    var e := SlotOf(slots, n, ino, 0);
    (slots[e := ZERO_ENTRY], if e == n - 1 then LiveCount(slots, e) else n)
  }

  /** No entry in use lies behind the `limit` slots that remain, except the one removed. */
  ghost predicate NoneBeyond(slots: seq<Entry>, e: nat, limit: nat) {
    forall i | LiveAt(slots, i) && i != e :: i < limit
  }

  /** do_unlink keeps every other name exactly when no other entry lies behind what remains searchable;
      the removed name is gone in any case. */
  lemma RemoveExact(slots: seq<Entry>, n: nat, name: seq<char>)
    requires DirOk(slots, n) && GoodName(name) && Search(slots, n, name) != INVALID_INODE
    ensures SlotOf(slots, n, Search(slots, n, name), 0) < n
    ensures var ino := Search(slots, n, name); var (slots', n') := Removed(slots, n, ino);
            && Limit(n') <= |slots| && Search(slots', n', name) == INVALID_INODE
            && (NoneBeyond(slots, SlotOf(slots, n, ino, 0), Limit(n')) <==>
                forall other | GoodName(other) && other != name :: Search(slots', n', other) == Search(slots, n, other))
  {
    var e := RemovedSlot(slots, n, name);
    var ino := Search(slots, n, name);
    var (slots', n') := Removed(slots, n, ino);
    LimitMonotone(n', n);
    RemovedNameGone(slots, n, name, e, n');
    if NoneBeyond(slots, e, Limit(n')) {
      forall other | GoodName(other) && other != name ensures Search(slots', n', other) == Search(slots, n, other) {
        OtherKept(slots, n, name, e, n', other);
      }
    } else {
      var i :| LiveAt(slots, i) && i != e && i >= Limit(n');
      var other :| NamedAt(slots, i, other);
      OtherLost(slots, n, e, n', i, other);
      PaddedInjective(other, name);
    }
  }

  lemma LimitMonotone(a: nat, b: nat)
    requires a <= b
    ensures Limit(a) <= Limit(b)
  {
  }

  /** The one slot bound to the name. */
  lemma RemovedSlot(slots: seq<Entry>, n: nat, name: seq<char>) returns (e: nat)
    requires DirOk(slots, n) && GoodName(name) && Search(slots, n, name) != INVALID_INODE
    ensures e < n && NamedAt(slots, e, name) && slots[e].inodeNr == Search(slots, n, name)
    ensures e == SlotOf(slots, n, Search(slots, n, name), 0)
  {
    SearchExact(slots, n, name);
    var i :| NamedAt(slots, i, name);
    e := SlotOf(slots, n, slots[i].inodeNr, 0);
    assert LiveAt(slots, e);
  }

  lemma RemovedNameGone(slots: seq<Entry>, n: nat, name: seq<char>, e: nat, n': nat)
    requires DirOk(slots, n) && GoodName(name) && NamedAt(slots, e, name) && Limit(n') <= |slots|
    ensures Search(slots[e := ZERO_ENTRY], n', name) == INVALID_INODE
  {
    KeyIsNotZero(name);
    var slots' := slots[e := ZERO_ENTRY];
    forall j | 0 <= j < Limit(n') ensures slots'[j].name != Padded(name) {
      if j != e && LiveAt(slots, j) { assert slots[j].name != slots[e].name; }
    }
    SearchMiss(slots', Padded(name), 0, Limit(n'));
  }

  lemma OtherKept(slots: seq<Entry>, n: nat, name: seq<char>, e: nat, n': nat, other: seq<char>)
    requires DirOk(slots, n) && NamedAt(slots, e, name) && Limit(n') <= |slots| && NoneBeyond(slots, e, Limit(n'))
    requires GoodName(other) && other != name
    ensures Search(slots[e := ZERO_ENTRY], n', other) == Search(slots, n, other)
  {
    SearchExact(slots, n, other);
    KeyIsNotZero(other);
    PaddedInjective(other, name);
    var slots' := slots[e := ZERO_ENTRY];
    if i :| NamedAt(slots, i, other) {
      forall j | 0 <= j < Limit(n') ensures slots'[j].name == Padded(other) ==> j == i {
        if j != e && j != i && LiveAt(slots, j) { assert slots[j].name != slots[i].name; }
      }
      SearchHit(slots', Padded(other), 0, Limit(n'), i);
    } else {
      forall j | 0 <= j < Limit(n') ensures slots'[j].name != Padded(other) {
        assert j != e && slots[j].name == Padded(other) ==> NamedAt(slots, j, other);
      }
      SearchMiss(slots', Padded(other), 0, Limit(n'));
    }
  }

  lemma OtherLost(slots: seq<Entry>, n: nat, e: nat, n': nat, i: nat, other: seq<char>)
    requires DirOk(slots, n) && NamedAt(slots, i, other) && i != e && Limit(n') <= i && e < |slots|
    ensures Search(slots[e := ZERO_ENTRY], n', other) != Search(slots, n, other)
  {
    SearchExact(slots, n, other);
    KeyIsNotZero(other);
    var slots' := slots[e := ZERO_ENTRY];
    forall j | 0 <= j < Limit(n') ensures slots'[j].name != Padded(other) {
      if j != e && LiveAt(slots, j) { assert slots[j].name != slots[i].name; }
    }
    SearchMiss(slots', Padded(other), 0, Limit(n'));
  }

  /** The directory stays in shape exactly when no entry in use lies behind the new end. */
  lemma RemoveKeepsShape(slots: seq<Entry>, n: nat, ino: nat)
    requires DirOk(slots, n) && ino != INVALID_INODE && SlotOf(slots, n, ino, 0) < n
    ensures var (slots', n') := Removed(slots, n, ino);
            && Used(slots') == Used(slots) - {ino}
            && (DirOk(slots', n') <==> NoneBeyond(slots, SlotOf(slots, n, ino, 0), n'))
  {
    var (slots', n') := Removed(slots, n, ino);
    var e := SlotOf(slots, n, ino, 0);
    LimitMonotone(n', n);
    forall i | LiveAt(slots, i) && i != e ensures LiveAt(slots', i) && HasName(slots', i) {
      assert LiveAt(slots', i);
      var s :| NamedAt(slots, i, s);
      assert NamedAt(slots', i, s);
    }
    forall x ensures x in Used(slots') <==> x in Used(slots) - {ino} {
      if x in Used(slots) - {ino} {
        var i :| 0 <= i < |slots| && LiveAt(slots, i) && slots[i].inodeNr == x;
        assert LiveAt(slots', i) && slots'[i].inodeNr == x;
      }
      if x in Used(slots') {
        var i :| 0 <= i < |slots'| && LiveAt(slots', i) && slots'[i].inodeNr == x;
        assert LiveAt(slots, i) && LiveAt(slots, e);
      }
    }
  }

  /** Among the first e slots, no free one lies before one in use. */
  ghost predicate NoHoleBefore(slots: seq<Entry>, e: nat) {
    forall i, j | 0 <= i < j < e && LiveAt(slots, j) :: LiveAt(slots, i)
  }

  lemma {:induction false} AllLive(slots: seq<Entry>, e: nat)
    requires e <= |slots|
    ensures LiveCount(slots, e) == e <==> forall k | 0 <= k < e :: LiveAt(slots, k)
  {
    if e > 0 { AllLive(slots, e - 1); }
  }

  lemma {:induction false} NoneLiveFrom(slots: seq<Entry>, c: nat, e: nat)
    requires c <= e <= |slots| && forall k | c <= k < e :: !LiveAt(slots, k)
    ensures LiveCount(slots, e) == LiveCount(slots, c)
  {
    if c < e { NoneLiveFrom(slots, c, e - 1); }
  }

  lemma {:induction false} CompactCount(slots: seq<Entry>, e: nat)
    requires e <= |slots| && NoHoleBefore(slots, e)
    ensures forall i | 0 <= i < e :: LiveAt(slots, i) <==> i < LiveCount(slots, e)
  {
    if e > 0 {
      CompactCount(slots, e - 1);
      if LiveAt(slots, e - 1) { AllLive(slots, e); }
    }
  }

  /** Counting the entries in use before slot e finds the end of the directory exactly when there is no hole among
      them. */
  lemma CountIsEnd(slots: seq<Entry>, e: nat)
    requires e <= |slots|
    ensures NoHoleBefore(slots, e) <==> forall i | 0 <= i < e && LiveAt(slots, i) :: i < LiveCount(slots, e)
  {
    var c := LiveCount(slots, e);
    if NoHoleBefore(slots, e) {
      CompactCount(slots, e);
    } else if forall i | 0 <= i < e && LiveAt(slots, i) :: i < c {
      NoneLiveFrom(slots, c, e);
      AllLive(slots, c);
    }
  }

  /** The directory stays in shape exactly when the removed entry was not the last one, or no free slot lies before an
      entry in front of it. */
  lemma RemovalIsRight(slots: seq<Entry>, n: nat, ino: nat)
    requires DirOk(slots, n) && ino != INVALID_INODE && SlotOf(slots, n, ino, 0) < n
    ensures var e := SlotOf(slots, n, ino, 0); var (slots', n') := Removed(slots, n, ino);
            DirOk(slots', n') <==> e < n - 1 || NoHoleBefore(slots, e)
  {
    RemoveKeepsShape(slots, n, ino);
    CountIsEnd(slots, SlotOf(slots, n, ino, 0));
  }

  /** Two free slots before the last entry but one: removing the last entry loses the file in between. */
  lemma ShrinkLosesAFile(slots: seq<Entry>)
    requires DirOk(slots, 8) && LiveAt(slots, 0) && LiveAt(slots, 1) && LiveAt(slots, 2) && LiveAt(slots, 3)
    requires slots[4] == slots[5] == ZERO_ENTRY
    requires slots[6] == Entry(7, Padded("c")) && slots[7] == Entry(8, Padded("d"))
    ensures SlotOf(slots, 8, 8, 0) == 7 && Search(slots, 8, "c") == 7
    ensures var (slots', n') := Removed(slots, 8, 8); n' == 5 && Search(slots', n', "c") == INVALID_INODE
  {
    assert NamedAt(slots, 6, "c");
    SearchExact(slots, 8, "c");
    AllLive(slots, 4);
    NoneLiveFrom(slots, 4, 6);
    assert LiveCount(slots, 7) == 5;
    SlotOfLast(slots, 7);
    OtherLost(slots, 8, 7, 5, 6, "c");
  }

  lemma SlotOfLast(slots: seq<Entry>, e: nat)
    requires DirOk(slots, e + 1) && LiveAt(slots, e)
    ensures e < |slots| && SlotOf(slots, e + 1, slots[e].inodeNr, 0) == e
  {
  }

  // ---------------------------------------------------------------- the code

  ghost predicate Blocks(blocks: seq<seq<Entry>>) {
    forall b | 0 <= b < |blocks| :: |blocks[b]| == PER_SECTOR
  }

  /** The slots of all the directory's sectors in a row. */
  ghost function SlotsOf(blocks: seq<seq<Entry>>): seq<Entry>
    requires Blocks(blocks)
  {
    seq(PER_SECTOR * |blocks|, k requires 0 <= k < PER_SECTOR * |blocks| => blocks[k / PER_SECTOR][k % PER_SECTOR])
  }

  lemma SlotNumber(blocks: seq<seq<Entry>>, k: nat, e: Entry)
    requires Blocks(blocks) && k < PER_SECTOR * |blocks|
    ensures var b, o := k / PER_SECTOR, k % PER_SECTOR;
            && b < |blocks| && o < |blocks[b]| && SlotsOf(blocks)[k] == blocks[b][o]
            && Blocks(blocks[b := blocks[b][o := e]])
            && SlotsOf(blocks[b := blocks[b][o := e]]) == SlotsOf(blocks)[k := e]
  {
    var b, o := k / PER_SECTOR, k % PER_SECTOR;
    var d, d' := SlotsOf(blocks)[k := e], SlotsOf(blocks[b := blocks[b][o := e]]);
    forall x | 0 <= x < |d| ensures d'[x] == d[x] {
      if x / PER_SECTOR == b && x % PER_SECTOR == o { assert x == k; }
    }
  }

  lemma SlotAt(blocks: seq<seq<Entry>>, i: nat, j: nat, e: Entry)
    requires Blocks(blocks) && i < |blocks| && j < PER_SECTOR
    ensures PER_SECTOR * i + j < |SlotsOf(blocks)| && SlotsOf(blocks)[PER_SECTOR * i + j] == blocks[i][j]
    ensures Blocks(blocks[i := blocks[i][j := e]])
    ensures SlotsOf(blocks[i := blocks[i][j := e]]) == SlotsOf(blocks)[PER_SECTOR * i + j := e]
  {
    var k := PER_SECTOR * i + j;
    assert k / PER_SECTOR == i && k % PER_SECTOR == j;
    SlotNumber(blocks, k, e);
  }

  /** How many sectors search_file, and how many new_dir_entry and do_unlink, walk for n entries. */
  lemma WholeCount(size: nat, n: nat)
    requires size == DIR_ENTRY_SIZE * n
    ensures size % DIR_ENTRY_SIZE == 0 && size / DIR_ENTRY_SIZE == n
  {
  }

  lemma SectorCount(size: nat)
    requires size % DIR_ENTRY_SIZE == 0
    ensures var n := size / DIR_ENTRY_SIZE;
            && (size + SECTOR_SIZE) / SECTOR_SIZE == n / PER_SECTOR + 1
            && (size + SECTOR_SIZE - 1) / SECTOR_SIZE == n / PER_SECTOR + (if n % PER_SECTOR == 0 then 0 else 1)
            && n == PER_SECTOR * (n / PER_SECTOR) + n % PER_SECTOR
  {
  }

  /** What strip_path makes of a path: a leading slash is dropped, at most twelve characters are taken, and a slash
      among them is refused. */
  function Stripped(path: seq<char>): seq<char> {
    var s := if path != [] && path[0] == '/' then path[1..] else path;
    if |s| > MAX_FILENAME_LEN then s[..MAX_FILENAME_LEN] else s
  }

  method StripPath(path: seq<char>) returns (ok: bool, filename: seq<char>)
    ensures ok <==> '/' !in Stripped(path)
    ensures ok ==> filename == Stripped(path)
  {
    var s := 0;
    if path != [] && path[0] == '/' {
      s := 1;
    }
    ghost var s0 := s;
    filename := [];
    while s < |path|
      invariant s0 <= s <= |path| && filename == path[s0..s] && |filename| < MAX_FILENAME_LEN && '/' !in filename
    {
      if path[s] == '/' {
        assert path[s] == path[s0..][s - s0];
        return false, filename;
      }
      filename := filename + [path[s]];
      s := s + 1;
      if |filename| >= MAX_FILENAME_LEN {
        break;
      }
    }
    ok := true;
  }

  class RootDirectory {
    /** The sectors of the directory's extent. */
    var blocks: seq<seq<Entry>>

    constructor (image: seq<seq<Entry>>)
      requires Blocks(image)
      ensures Valid() && blocks == image
    {
      blocks := image;
    }

    ghost predicate Valid()
      reads this
    {
      Blocks(blocks)
    }

    ghost function Slots(): seq<Entry>
      reads this
      requires Valid()
    {
      SlotsOf(blocks)
    }

    /** `size` is the directory's i_size; the result is 1, the root itself, for a path without a name. */
    method SearchFile(path: seq<char>, size: nat, rootNum: nat) returns (inodeNr: nat)
      requires Valid() && size % DIR_ENTRY_SIZE == 0 && Limit(size / DIR_ENTRY_SIZE) <= |Slots()|
      ensures inodeNr == if '/' in Stripped(path) then INVALID_INODE
                         else if Stripped(path) == [] then rootNum
                         else Search(Slots(), size / DIR_ENTRY_SIZE, Stripped(path))
    {
      var ok, filename := StripPath(path);
      if !ok {
        return INVALID_INODE;
      }
      if filename == [] {
        return rootNum;
      }
      var key := Padded(filename);
      var nrDirBlks := (size + SECTOR_SIZE - 1) / SECTOR_SIZE;
      var nrDirEntries := size / DIR_ENTRY_SIZE;
      SectorCount(size);
      var m := 0;
      var i := 0;
      while i < nrDirBlks
        invariant 0 <= i <= nrDirBlks && m == PER_SECTOR * i <= nrDirEntries
        invariant Search(Slots(), nrDirEntries, filename) == SearchFrom(Slots(), key, m, Limit(nrDirEntries))
      {
        var done;
        inodeNr, m, done := SearchSector(key, i, m, nrDirEntries);
        if done {
          return;
        }
        i := i + 1;
      }
      return INVALID_INODE;
    }

    /** The slots of one sector; `done` says that the search is over. */
    method SearchSector(key: Name, i: nat, m0: nat, nrDirEntries: nat) returns (inodeNr: nat, m: nat, done: bool)
      requires Valid() && i < |blocks| && m0 == PER_SECTOR * i <= nrDirEntries && Limit(nrDirEntries) <= |Slots()|
      requires m0 < Limit(nrDirEntries)
      ensures done ==> inodeNr == SearchFrom(Slots(), key, m0, Limit(nrDirEntries))
      ensures !done ==> m == m0 + PER_SECTOR <= nrDirEntries
                        && SearchFrom(Slots(), key, m0, Limit(nrDirEntries))
                           == SearchFrom(Slots(), key, m, Limit(nrDirEntries))
    {
      m := m0;
      var j := 0;
      ghost var slots, limit := Slots(), Limit(nrDirEntries);
      while j < PER_SECTOR
        invariant 0 <= j <= PER_SECTOR && m == m0 + j <= nrDirEntries
        invariant SearchFrom(slots, key, m0, limit) == SearchFrom(slots, key, m, limit)
      {
        SlotAt(blocks, i, j, ZERO_ENTRY);
        if blocks[i][j].name == key {
          return blocks[i][j].inodeNr, m, true;
        }
        m := m + 1;
        if m > nrDirEntries {
          return INVALID_INODE, m, true;
        }
        j := j + 1;
      }
      return INVALID_INODE, m, false;
    }

    /** The walk of new_dir_entry over one sector: slot j of it is the first free one, or the one behind the last entry;
        `stop` says that the walk ends here. */
    method FreeInSector(i: nat, m0: nat, nrDirEntries: nat) returns (found: bool, m: nat, j: nat)
      requires Valid() && i < |blocks| && m0 == PER_SECTOR * i <= nrDirEntries < |Slots()|
      ensures var e := Place(Slots(), nrDirEntries, m0);
              if found || m > nrDirEntries then j < PER_SECTOR && e == m0 + j && (found <==> e < nrDirEntries)
              else m == m0 + PER_SECTOR && m <= nrDirEntries && e == Place(Slots(), nrDirEntries, m)
    {
      m := m0;
      found := false;
      j := 0;
      while j < PER_SECTOR
        invariant 0 <= j <= PER_SECTOR && m == m0 + j <= nrDirEntries && !found
        invariant Place(Slots(), nrDirEntries, m0) == Place(Slots(), nrDirEntries, m)
      {
        SlotAt(blocks, i, j, ZERO_ENTRY);
        m := m + 1;
        if m > nrDirEntries {
          break;
        }
        if blocks[i][j].inodeNr == 0 {
          found := true;
          break;
        }
        j := j + 1;
      }
    }

    /** Enters a name; the result is the directory's new size. */
    method NewDirEntry(size: nat, inodeNr: nat, filename: seq<char>) returns (size': nat)
      requires Valid() && size % DIR_ENTRY_SIZE == 0 && size / DIR_ENTRY_SIZE < |Slots()|
               && |filename| < MAX_FILENAME_LEN
      modifies this
      ensures Valid() && |blocks| == |old(blocks)| && size' % DIR_ENTRY_SIZE == 0
      ensures (Slots(), size' / DIR_ENTRY_SIZE) == Added(old(Slots()), size / DIR_ENTRY_SIZE, inodeNr, filename)
    {
      var nrDirBlks := (size + SECTOR_SIZE) / SECTOR_SIZE;
      var nrDirEntries := size / DIR_ENTRY_SIZE;
      SectorCount(size);
      ghost var e := Place(Slots(), nrDirEntries, 0);
      var m, i, j := 0, 0, 0;
      var found := false;
      while i < nrDirBlks
        invariant 0 <= i <= nrDirBlks && m == PER_SECTOR * i <= nrDirEntries && !found && blocks == old(blocks)
        invariant Place(Slots(), nrDirEntries, m) == e
      {
        found, m, j := FreeInSector(i, m, nrDirEntries);
        if m > nrDirEntries || found {
          break;
        }
        i := i + 1;
      }
      assert e == PER_SECTOR * i + j && i < nrDirBlks;
      size' := size;
      if !found {
        size' := size + DIR_ENTRY_SIZE;
      }
      SlotAt(blocks, i, j, Entry(inodeNr, Written(blocks[i][j].name, filename)));
      blocks := blocks[i := blocks[i][j := Entry(inodeNr, Written(blocks[i][j].name, filename))]];
    }

    /** The walk of do_unlink has passed m slots of `slots` without meeting inodeNr. */
    ghost predicate Walked(slots: seq<Entry>, n: nat, inodeNr: nat, m: nat, dirSize: nat)
      reads this
    {
      && Valid() && Slots() == slots && m <= n <= |slots| && dirSize == DIR_ENTRY_SIZE * LiveCount(slots, m)
      && SlotOf(slots, n, inodeNr, m) == SlotOf(slots, n, inodeNr, 0)
    }

    /** ... and has ended at the slot e of inodeNr. */
    ghost predicate Zeroed(slots: seq<Entry>, e: nat, m: nat, dirSize: nat)
      reads this
    {
      && Valid() && e < |slots| && m == e + 1 && Slots() == slots[e := ZERO_ENTRY]
      && dirSize == DIR_ENTRY_SIZE * LiveCount(slots, e)
    }

    /** The walk of do_unlink over one sector: zeroes the slot of inodeNr, counts the bytes of entries in use
        before it. */
    method ZeroInSector(i: nat, m0: nat, nrDirEntries: nat, inodeNr: nat, dirSize0: nat, ghost slots: seq<Entry>)
      returns (flg: bool, m: nat, dirSize: nat)
      requires Walked(slots, nrDirEntries, inodeNr, m0, dirSize0) && i < |blocks| && m0 == PER_SECTOR * i
      requires inodeNr != INVALID_INODE && SlotOf(slots, nrDirEntries, inodeNr, 0) < nrDirEntries
      modifies this
      ensures |blocks| == |old(blocks)|
      ensures flg ==> Zeroed(slots, SlotOf(slots, nrDirEntries, inodeNr, 0), m, dirSize)
      ensures !flg ==> m == m0 + PER_SECTOR && Walked(slots, nrDirEntries, inodeNr, m, dirSize)
    {
      m := m0;
      flg := false;
      dirSize := dirSize0;
      var j := 0;
      while j < PER_SECTOR
        invariant 0 <= j <= PER_SECTOR && m == m0 + j && blocks == old(blocks) && !flg
        invariant Walked(slots, nrDirEntries, inodeNr, m, dirSize)
      {
        SlotAt(blocks, i, j, ZERO_ENTRY);
        m := m + 1;
        if m > nrDirEntries {
          break;
        }
        if blocks[i][j].inodeNr == inodeNr {
          blocks := blocks[i := blocks[i][j := ZERO_ENTRY]];
          flg := true;
          break;
        }
        if blocks[i][j].inodeNr != INVALID_INODE {
          dirSize := dirSize + DIR_ENTRY_SIZE;
        }
        j := j + 1;
      }
    }

    /** The end of do_unlink: zeroes the slot of a file; `last` says that it was the last one, and that the size
        changes. */
    method RemoveEntry(size: nat, inodeNr: nat) returns (last: bool, size': nat)
      requires Valid() && size % DIR_ENTRY_SIZE == 0 && size / DIR_ENTRY_SIZE <= |Slots()| && inodeNr != INVALID_INODE
      requires SlotOf(Slots(), size / DIR_ENTRY_SIZE, inodeNr, 0) < size / DIR_ENTRY_SIZE
      modifies this
      ensures Valid() && |blocks| == |old(blocks)| && size' % DIR_ENTRY_SIZE == 0
      ensures var n := size / DIR_ENTRY_SIZE; last == (SlotOf(old(Slots()), n, inodeNr, 0) == n - 1)
      ensures !last ==> size' == size
      ensures (Slots(), size' / DIR_ENTRY_SIZE) == Removed(old(Slots()), size / DIR_ENTRY_SIZE, inodeNr)
    {
      var nrDirEntries := size / DIR_ENTRY_SIZE;
      SectorCount(size);
      var m, dirSize := ZeroSlot((size + SECTOR_SIZE) / SECTOR_SIZE, nrDirEntries, inodeNr);
      size' := size;
      last := m == nrDirEntries;
      if last {
        size' := dirSize;
        WholeCount(dirSize, LiveCount(old(Slots()), m - 1));
      }
    }

    /** The walk over the sectors; m is the number of the slot plus one. */
    method ZeroSlot(nrDirBlks: nat, nrDirEntries: nat, inodeNr: nat) returns (m: nat, dirSize: nat)
      requires Valid() && nrDirEntries <= |Slots()| && inodeNr != INVALID_INODE
      requires PER_SECTOR * nrDirBlks > nrDirEntries && SlotOf(Slots(), nrDirEntries, inodeNr, 0) < nrDirEntries
      modifies this
      ensures Valid() && |blocks| == |old(blocks)|
      ensures Zeroed(old(Slots()), SlotOf(old(Slots()), nrDirEntries, inodeNr, 0), m, dirSize)
    {
      ghost var slots := Slots();
      var i := 0;
      var flg := false;
      m, dirSize := 0, 0;
      while i < nrDirBlks
        invariant 0 <= i <= nrDirBlks && m == PER_SECTOR * i && !flg && |blocks| == |old(blocks)|
        invariant Walked(slots, nrDirEntries, inodeNr, m, dirSize)
      {
        flg, m, dirSize := ZeroInSector(i, m, nrDirEntries, inodeNr, dirSize, slots);
        if m > nrDirEntries || flg {
          break;
        }
        i := i + 1;
      }
      assert flg;
    }
  }
}
