/**
 The two levels of reference counts between the processes' filp[] and the inode cache: a descriptor counts the
 filp[] entries that point at it, an inode the descriptors' counts.
 */
module Refs {
  import opened Base
  import opened InodeCache

  /** root_inode, held by the file server itself: the first slot of the empty cache. */
  const ROOT_SLOT := 0

  /** A slot of f_desc_table[]; `inode` is the cache slot of fd_inode, or NIL. */
  datatype Desc = Desc(mode: nat, pos: nat, cnt: nat, inode: int)

  /** `filp[p][fd]` is a descriptor number, or NIL. */
  datatype Tables = Tables(filp: seq<seq<int>>, descs: seq<Desc>, cache: seq<Inode>)

  // ---------------------------------------------------------------- counting

  function RefCount(filp: seq<seq<int>>, d: int): nat {
    if filp == [] then 0 else RefCount(filp[..|filp| - 1], d) + multiset(filp[|filp| - 1])[d]
  }

  function InodeRefs(descs: seq<Desc>, s: int): nat {
    if descs == [] then 0
    else InodeRefs(descs[..|descs| - 1], s) + if descs[|descs| - 1].inode == s then descs[|descs| - 1].cnt else 0
  }

  function At(d: Desc, s: int): nat {
    if d.inode == s then d.cnt else 0
  }

  lemma {:induction false} RefCountUpdate(filp: seq<seq<int>>, p: nat, row: seq<int>, d: int)
    requires p < |filp|
    ensures RefCount(filp[p := row], d) + multiset(filp[p])[d] == RefCount(filp, d) + multiset(row)[d]
  {
    var n, filp' := |filp| - 1, filp[p := row];
    if p < n {
      RefCountUpdate(filp[..n], p, row, d);
      assert filp'[..n] == filp[..n][p := row];
    } else {
      assert filp'[..n] == filp[..n];
    }
  }

  lemma {:induction false} InodeRefsUpdate(descs: seq<Desc>, d: nat, e: Desc, s: int)
    requires d < |descs|
    ensures InodeRefs(descs[d := e], s) + At(descs[d], s) == InodeRefs(descs, s) + At(e, s)
  {
    var n, descs' := |descs| - 1, descs[d := e];
    if d < n {
      InodeRefsUpdate(descs[..n], d, e, s);
      assert descs'[..n] == descs[..n][d := e];
    } else {
      assert descs'[..n] == descs[..n];
    }
  }

  predicate Holds(filp: seq<seq<int>>, p: int, fd: int, d: int) {
    0 <= p < |filp| && 0 <= fd < |filp[p]| && filp[p][fd] == d
  }

  lemma {:induction false} RefCountPositive(filp: seq<seq<int>>, d: int)
    ensures RefCount(filp, d) > 0 <==> exists p, fd :: Holds(filp, p, fd, d)
  {
    if filp != [] {
      var n := |filp| - 1;
      var front := filp[..n];
      RefCountPositive(front, d);
      if multiset(filp[n])[d] > 0 {
        var fd :| 0 <= fd < |filp[n]| && filp[n][fd] == d;
        assert Holds(filp, n, fd, d);
      }
      if p, fd :| Holds(front, p, fd, d) { assert Holds(filp, p, fd, d); }
      if p, fd :| Holds(filp, p, fd, d) {
        if p == n { assert d in filp[n]; } else { assert Holds(front, p, fd, d); }
      }
    }
  }

  lemma {:induction false} InodeRefsPositive(descs: seq<Desc>, s: int)
    ensures InodeRefs(descs, s) > 0 <==> exists d :: 0 <= d < |descs| && At(descs[d], s) > 0
  {
    if descs != [] {
      var n := |descs| - 1;
      var front := descs[..n];
      InodeRefsPositive(front, s);
      if d :| 0 <= d < |front| && At(front[d], s) > 0 { assert At(descs[d], s) > 0; }
      if d :| 0 <= d < |descs| && At(descs[d], s) > 0 { assert d < n ==> At(front[d], s) > 0; }
    }
  }

  // ---------------------------------------------------------------- the invariant

  ghost predicate RowsOk(filp: seq<seq<int>>, n: nat) {
    forall p, fd, d | Holds(filp, p, fd, d) :: NIL <= d < n
  }

  predicate DescOk(filp: seq<seq<int>>, descs: seq<Desc>, d: nat)
    requires d < |descs|
  {
    descs[d].cnt == RefCount(filp, d) && (descs[d].cnt > 0 <==> descs[d].inode != NIL)
  }

  /** References to slot s that nobody holds: one for each unlink refused after get_inode. */
  function Leak(r: Tables, s: nat): int
    requires s < |r.cache|
  {
    r.cache[s].cnt - InodeRefs(r.descs, s) - (if s == ROOT_SLOT then 1 else 0)
  }

  ghost predicate RefsOk(r: Tables) {
    && RowsOk(r.filp, |r.descs|)
    && (forall d | 0 <= d < |r.descs| :: NIL <= r.descs[d].inode < |r.cache| && DescOk(r.filp, r.descs, d))
    && (forall s | 0 <= s < |r.cache| :: Leak(r, s) >= 0)
  }

  /** Some process holds a descriptor on the inode in slot s. */
  ghost predicate HeldBy(r: Tables, s: int, p: int, fd: int) {
    0 <= p < |r.filp| && 0 <= fd < |r.filp[p]| && 0 <= r.filp[p][fd] < |r.descs| && r.descs[r.filp[p][fd]].inode == s
  }

  /** An inode slot counts more than nothing exactly when the file server, a process, or a refused unlink holds it. */
  lemma InUse(r: Tables, s: nat)
    requires RefsOk(r) && s < |r.cache|
    ensures r.cache[s].cnt > 0 <==> s == ROOT_SLOT || Leak(r, s) > 0 || exists p, fd :: HeldBy(r, s, p, fd)
  {
    assert Leak(r, s) >= 0;
    HeldExact(r, s);
  }

  lemma HeldExact(r: Tables, s: nat)
    requires RefsOk(r) && s < |r.cache|
    ensures InodeRefs(r.descs, s) > 0 <==> exists p, fd :: HeldBy(r, s, p, fd)
  {
    InodeRefsPositive(r.descs, s);
    if d :| 0 <= d < |r.descs| && At(r.descs[d], s) > 0 {
      assert DescOk(r.filp, r.descs, d);
      RefCountPositive(r.filp, d);
      var p, fd :| Holds(r.filp, p, fd, d);
      assert HeldBy(r, s, p, fd);
    }
    if p, fd :| HeldBy(r, s, p, fd) {
      HolderCounts(r, s, p, fd);
    }
  }

  lemma HolderCounts(r: Tables, s: nat, p: nat, fd: nat)
    requires RefsOk(r) && s < |r.cache| && HeldBy(r, s, p, fd)
    ensures var d := r.filp[p][fd]; r.descs[d].cnt > 0 && r.cache[s].cnt > 0 && InodeRefs(r.descs, s) > 0
  {
    var d := r.filp[p][fd];
    assert DescOk(r.filp, r.descs, d);
    assert At(r.descs[d], s) > 0;
    InodeRefsPositive(r.descs, s);
    assert Leak(r, s) >= 0;
  }

  /** A descriptor slot that do_open takes is pointed at by no process. */
  lemma FreeDescUnreferenced(r: Tables, d: nat)
    requires RefsOk(r) && d < |r.descs| && r.descs[d].inode == NIL
    ensures forall p, fd :: !Holds(r.filp, p, fd, d)
  {
    assert DescOk(r.filp, r.descs, d);
    RefCountPositive(r.filp, d);
  }

  // ---------------------------------------------------------------- the steps

  /** One reference more to the inode in slot s. */
  function More(cache: seq<Inode>, s: nat): seq<Inode>
    requires s < |cache|
  {
    cache[s := cache[s].(cnt := cache[s].cnt + 1)]
  }

  function Fewer(cache: seq<Inode>, s: nat): seq<Inode>
    requires s < |cache| && cache[s].cnt > 0
  {
    cache[s := cache[s].(cnt := cache[s].cnt - 1)]
  }

  function Point(filp: seq<seq<int>>, p: nat, fd: nat, d: int): seq<seq<int>>
    requires p < |filp| && fd < |filp[p]|
  {
    filp[p := filp[p][fd := d]]
  }

  ghost predicate CanShare(r: Tables, p: nat, fd: nat, d: nat) {
    Holds(r.filp, p, fd, NIL) && d < |r.descs| && 0 <= r.descs[d].inode < |r.cache|
  }

  /** An entry of the child's row in fs_fork. */
  function Share(r: Tables, p: nat, fd: nat, d: nat): Tables
    requires CanShare(r, p, fd, d)
  {
    Tables(Point(r.filp, p, fd, d), r.descs[d := r.descs[d].(cnt := r.descs[d].cnt + 1)],
        More(r.cache, r.descs[d].inode))
  }

  predicate CanDrop(r: Tables, p: nat, fd: nat) {
    && p < |r.filp| && fd < |r.filp[p]| && 0 <= r.filp[p][fd] < |r.descs|
    && var e := r.descs[r.filp[p][fd]]; e.cnt > 0 && 0 <= e.inode < |r.cache| && r.cache[e.inode].cnt > 0
  }

  function Released(e: Desc): Desc
    requires e.cnt > 0
  {
    if e.cnt == 1 then e.(cnt := 0, inode := NIL) else e.(cnt := e.cnt - 1)
  }

  /** do_close, and an entry of the row in fs_exit. */
  function Drop(r: Tables, p: nat, fd: nat): Tables
    requires CanDrop(r, p, fd)
  {
    var d := r.filp[p][fd];
    Tables(Point(r.filp, p, fd, NIL), r.descs[d := Released(r.descs[d])], Fewer(r.cache, r.descs[d].inode))
  }

  ghost predicate CanAttach(r: Tables, p: nat, fd: nat, d: nat, s: nat) {
    Holds(r.filp, p, fd, NIL) && d < |r.descs| && r.descs[d].inode == NIL && s < |r.cache|
  }

  /** do_open's descriptor on slot s. */
  function Attach(r: Tables, p: nat, fd: nat, d: nat, s: nat, mode: nat): Tables
    requires CanAttach(r, p, fd, d, s)
  {
    Tables(Point(r.filp, p, fd, d), r.descs[d := Desc(mode, 0, 1, s)], r.cache)
  }

  // ---------------------------------------------------------------- what the steps keep

  lemma PointCount(filp: seq<seq<int>>, p: nat, fd: nat, d: int, x: int)
    requires p < |filp| && fd < |filp[p]|
    ensures RefCount(Point(filp, p, fd, d), x) + (if x == filp[p][fd] then 1 else 0)
            == RefCount(filp, x) + (if x == d then 1 else 0)
  {
    RefCountUpdate(filp, p, filp[p][fd := d], x);
  }

  lemma PointRows(filp: seq<seq<int>>, p: nat, fd: nat, d: int, n: nat)
    requires RowsOk(filp, n) && p < |filp| && fd < |filp[p]| && NIL <= d < n
    ensures RowsOk(Point(filp, p, fd, d), n)
  {
    var filp' := Point(filp, p, fd, d);
    forall q, i, x | Holds(filp', q, i, x) ensures NIL <= x < n {
      assert q != p || i != fd ==> Holds(filp, q, i, x);
    }
  }

  /** A change of one filp[] entry together with the descriptors it left and reached. */
  lemma StepOk(r: Tables, r': Tables, p: nat, fd: nat, d: nat, was: int, now: int)
    requires RefsOk(r) && Holds(r.filp, p, fd, was) && r'.filp == Point(r.filp, p, fd, now)
    requires d < |r.descs| && |r'.descs| == |r.descs| && |r'.cache| == |r.cache|
    requires (was == d && now == NIL) || (was == NIL && now == d)
    requires forall x | 0 <= x < |r.descs| && x != d :: r'.descs[x] == r.descs[x]
    requires r'.descs[d].cnt == r.descs[d].cnt + (if now == d then 1 else -1)
    requires r'.descs[d].cnt > 0 <==> r'.descs[d].inode != NIL
    requires NIL <= r'.descs[d].inode < |r.cache|
    requires forall s | 0 <= s < |r.cache| :: Leak(r', s) >= 0
    ensures RefsOk(r')
  {
    PointRows(r.filp, p, fd, now, |r.descs|);
    forall x | 0 <= x < |r.descs| ensures DescOk(r'.filp, r'.descs, x) {
      assert DescOk(r.filp, r.descs, x);
      PointCount(r.filp, p, fd, now, x);
    }
  }

  lemma ShareKeeps(r: Tables, p: nat, fd: nat, d: nat)
    requires RefsOk(r) && CanShare(r, p, fd, d)
    ensures RefsOk(Share(r, p, fd, d))
    ensures forall s | 0 <= s < |r.cache| :: Leak(Share(r, p, fd, d), s) == Leak(r, s)
  {
    var r' := Share(r, p, fd, d);
    assert DescOk(r.filp, r.descs, d);
    forall s | 0 <= s < |r.cache| ensures Leak(r', s) == Leak(r, s) {
      InodeRefsUpdate(r.descs, d, r'.descs[d], s);
    }
    StepOk(r, r', p, fd, d, NIL, d);
  }

  lemma DropKeeps(r: Tables, p: nat, fd: nat)
    requires RefsOk(r) && CanDrop(r, p, fd)
    ensures RefsOk(Drop(r, p, fd))
    ensures forall s | 0 <= s < |r.cache| :: Leak(Drop(r, p, fd), s) == Leak(r, s)
  {
    var r' := Drop(r, p, fd);
    var d := r.filp[p][fd];
    assert DescOk(r.filp, r.descs, d);
    forall s | 0 <= s < |r.cache| ensures Leak(r', s) == Leak(r, s) {
      InodeRefsUpdate(r.descs, d, r'.descs[d], s);
    }
    StepOk(r, r', p, fd, d, d, NIL);
  }

  /** A held entry can always be closed. */
  lemma HeldCanDrop(r: Tables, p: nat, fd: nat)
    requires RefsOk(r) && p < |r.filp| && fd < |r.filp[p]| && r.filp[p][fd] != NIL
    ensures CanDrop(r, p, fd)
  {
    var d := r.filp[p][fd];
    assert Holds(r.filp, p, fd, d);
    assert DescOk(r.filp, r.descs, d);
    RefCountPositive(r.filp, d);
    HolderCounts(r, r.descs[d].inode, p, fd);
  }

  /** get_inode followed by do_open's descriptor. */
  lemma AttachKeeps(r: Tables, cache: seq<Inode>, p: nat, fd: nat, d: nat, s: nat, mode: nat)
    requires RefsOk(r) && CanAttach(r, p, fd, d, s) && OneMore(r.cache, cache, s)
    ensures var r' := Attach(r.(cache := cache), p, fd, d, s, mode);
            RefsOk(r') && forall x | 0 <= x < |r.cache| :: Leak(r', x) == Leak(r, x)
  {
    var r' := Attach(r.(cache := cache), p, fd, d, s, mode);
    assert DescOk(r.filp, r.descs, d);
    forall x | 0 <= x < |r.cache| ensures Leak(r', x) == Leak(r, x) {
      InodeRefsUpdate(r.descs, d, r'.descs[d], x);
    }
    StepOk(r, r', p, fd, d, NIL, d);
  }

  /** The counts after a get_inode that hands out slot s. */
  ghost predicate OneMore(cache: seq<Inode>, cache': seq<Inode>, s: nat) {
    && s < |cache| == |cache'| && cache'[s].cnt == cache[s].cnt + 1
    && forall x | 0 <= x < |cache| && x != s :: cache'[x].cnt == cache[x].cnt
  }

  /** get_inode without a descriptor, the refused unlink. */
  lemma GetLeaks(r: Tables, cache: seq<Inode>, s: nat)
    requires RefsOk(r) && OneMore(r.cache, cache, s)
    ensures RefsOk(r.(cache := cache))
    ensures forall x | 0 <= x < |r.cache| :: Leak(r.(cache := cache), x) == Leak(r, x) + if x == s then 1 else 0
  {
    var r' := r.(cache := cache);
    forall x | 0 <= x < |r.cache| ensures Leak(r', x) == Leak(r, x) + if x == s then 1 else 0 {
    }
  }

  /** Contents of the cache do not matter to the counts. */
  lemma CountsOnly(r: Tables, cache: seq<Inode>)
    requires RefsOk(r) && |cache| == |r.cache| && forall x | 0 <= x < |cache| :: cache[x].cnt == r.cache[x].cnt
    ensures RefsOk(r.(cache := cache))
    ensures forall x | 0 <= x < |r.cache| :: Leak(r.(cache := cache), x) == Leak(r, x)
  {
    var r' := r.(cache := cache);
    forall x | 0 <= x < |r.cache| ensures Leak(r', x) == Leak(r, x) {
    }
  }

  // ---------------------------------------------------------------- fork and exit

  /** The first k entries of `row` shared with process p, whose own row starts out empty. */
  function Forked(r: Tables, p: nat, row: seq<int>, k: nat): (r': Tables)
    requires ForkOk(r, p, row) && k <= |row|
    ensures |r'.filp| == |r.filp| && |r'.descs| == |r.descs| && |r'.cache| == |r.cache|
    ensures r'.filp == r.filp[p := row[..k] + r.filp[p][k..]]
    ensures forall d | 0 <= d < |r.descs| :: r'.descs[d].inode == r.descs[d].inode
  {
    if k == 0 then
      assert row[..0] + r.filp[p][0..] == r.filp[p];
      r
    else
      var q := Forked(r, p, row, k - 1);
      var d := row[k - 1];
      assert q.filp[p][k - 1] == NIL;
      assert (row[..k - 1] + r.filp[p][k - 1..])[k - 1 := d] == row[..k] + r.filp[p][k..];
      assert d == NIL ==> row[..k - 1] + r.filp[p][k - 1..] == row[..k] + r.filp[p][k..];
      if d == NIL then q else Share(q, p, k - 1, d)
  }

  /** `row` points at descriptors in use; p's own row is empty. */
  predicate ForkOk(r: Tables, p: nat, row: seq<int>) {
    && p < |r.filp| && |r.filp[p]| == |row| && (forall fd | 0 <= fd < |row| :: r.filp[p][fd] == NIL)
    && forall fd | 0 <= fd < |row| && row[fd] != NIL ::
        0 <= row[fd] < |r.descs| && 0 <= r.descs[row[fd]].inode < |r.cache|
  }

  lemma {:induction false} ForkKeeps(r: Tables, p: nat, row: seq<int>, k: nat)
    requires RefsOk(r) && ForkOk(r, p, row) && k <= |row|
    ensures RefsOk(Forked(r, p, row, k))
    ensures forall s | 0 <= s < |r.cache| :: Leak(Forked(r, p, row, k), s) == Leak(r, s)
  {
    if k > 0 {
      ForkKeeps(r, p, row, k - 1);
      var q := Forked(r, p, row, k - 1);
      if row[k - 1] != NIL { ShareKeeps(q, p, k - 1, row[k - 1]); }
      forall s | 0 <= s < |r.cache| ensures Leak(Forked(r, p, row, k), s) == Leak(r, s) {
        assert Leak(q, s) == Leak(r, s);
      }
    }
  }

  /** The row of another process can always be shared with a process that holds nothing. */
  lemma ParentForkOk(r: Tables, p: nat, parent: nat)
    requires RefsOk(r) && p < |r.filp| && parent < |r.filp| && |r.filp[p]| == |r.filp[parent]|
    requires forall fd | 0 <= fd < |r.filp[p]| :: r.filp[p][fd] == NIL
    ensures ForkOk(r, p, r.filp[parent])
  {
    var row := r.filp[parent];
    forall fd | 0 <= fd < |row| && row[fd] != NIL
      ensures 0 <= row[fd] < |r.descs| && 0 <= r.descs[row[fd]].inode < |r.cache|
    {
      assert Holds(r.filp, parent, fd, row[fd]);
      HeldCanDrop(r, parent, fd);
    }
  }

  /** The entries of process p from k on closed. */
  function Exited(r: Tables, p: nat, k: nat): (r': Tables)
    requires p < |r.filp| && k <= |r.filp[p]|
    decreases |r.filp[p]| - k
  {
    if k == |r.filp[p]| then r
    else if r.filp[p][k] == NIL then Exited(r, p, k + 1)
    else if CanDrop(r, p, k) then Exited(Drop(r, p, k), p, k + 1)
    else r
  }

  lemma {:induction false} ExitKeeps(r: Tables, p: nat, k: nat)
    requires RefsOk(r) && p < |r.filp| && k <= |r.filp[p]|
    ensures var r' := Exited(r, p, k);
            && RefsOk(r') && |r'.filp| == |r.filp| && |r'.descs| == |r.descs| && |r'.cache| == |r.cache|
            && (forall s | 0 <= s < |r.cache| :: Leak(r', s) == Leak(r, s))
            && (forall q | 0 <= q < |r.filp| && q != p :: r'.filp[q] == r.filp[q])
            && |r'.filp[p]| == |r.filp[p]|
            && (forall i | 0 <= i < |r.filp[p]| :: r'.filp[p][i] == if i < k then r.filp[p][i] else NIL)
    decreases |r.filp[p]| - k
  {
    if k < |r.filp[p]| {
      if r.filp[p][k] == NIL {
        ExitKeeps(r, p, k + 1);
      } else {
        HeldCanDrop(r, p, k);
        DropKeeps(r, p, k);
        ExitKeeps(Drop(r, p, k), p, k + 1);
      }
    }
  }

  /** Steps change counts and drop references to inodes; everything else of a descriptor or a cached inode stays. */
  ghost predicate SameBut(r: Tables, r': Tables) {
    && |r'.descs| == |r.descs| && |r'.cache| == |r.cache|
    && (forall d | 0 <= d < |r.descs| ::
          && r'.descs[d].mode == r.descs[d].mode && r'.descs[d].pos == r.descs[d].pos
          && (r'.descs[d].inode == r.descs[d].inode || r'.descs[d].inode == NIL))
    && (forall s | 0 <= s < |r.cache| :: r'.cache[s].num == r.cache[s].num && r'.cache[s].f == r.cache[s].f)
  }

  lemma {:induction false} ForkedSameBut(r: Tables, p: nat, row: seq<int>, k: nat)
    requires ForkOk(r, p, row) && k <= |row|
    ensures SameBut(r, Forked(r, p, row, k))
  {
    if k > 0 { ForkedSameBut(r, p, row, k - 1); }
  }

  lemma {:induction false} ExitedSameBut(r: Tables, p: nat, k: nat)
    requires p < |r.filp| && k <= |r.filp[p]|
    ensures SameBut(r, Exited(r, p, k))
    decreases |r.filp[p]| - k
  {
    if k < |r.filp[p]| {
      if r.filp[p][k] == NIL {
        ExitedSameBut(r, p, k + 1);
      } else if CanDrop(r, p, k) {
        ExitedSameBut(Drop(r, p, k), p, k + 1);
      }
    }
  }

  /** Equal filp[] and equal leaks leave nothing that could differ. */
  lemma CountsDetermine(r: Tables, r': Tables)
    requires RefsOk(r) && RefsOk(r') && SameBut(r, r') && r'.filp == r.filp
    requires forall s | 0 <= s < |r.cache| :: Leak(r', s) == Leak(r, s)
    ensures r' == r
  {
    forall d | 0 <= d < |r.descs| ensures r'.descs[d] == r.descs[d] {
      assert DescOk(r.filp, r.descs, d) && DescOk(r'.filp, r'.descs, d);
    }
    assert r'.descs == r.descs;
    forall s | 0 <= s < |r.cache| ensures r'.cache[s] == r.cache[s] {
      assert Leak(r', s) == Leak(r, s);
    }
  }

  /** A child that exits leaves every count, descriptor and cached inode as they were before the fork. */
  lemma ForkThenExit(r: Tables, p: nat, parent: nat)
    requires RefsOk(r) && p < |r.filp| && parent < |r.filp| && |r.filp[p]| == |r.filp[parent]|
    requires forall fd | 0 <= fd < |r.filp[p]| :: r.filp[p][fd] == NIL
    ensures ForkOk(r, p, r.filp[parent])
    ensures Exited(Forked(r, p, r.filp[parent], |r.filp[parent]|), p, 0) == r
  {
    ParentForkOk(r, p, parent);
    var row := r.filp[parent];
    var child := Forked(r, p, row, |row|);
    ForkKeeps(r, p, row, |row|);
    ForkedSameBut(r, p, row, |row|);
    ExitKeeps(child, p, 0);
    ExitedSameBut(child, p, 0);
    var r' := Exited(child, p, 0);
    assert r'.filp[p] == r.filp[p];
    assert r'.filp == r.filp;
    CountsDetermine(r, r');
  }

  /** fs_fork references no inode that is not already in use, fs_exit none at all. */
  lemma {:induction false} ForkedLive(r: Tables, p: nat, row: seq<int>, k: nat)
    requires RefsOk(r) && ForkOk(r, p, row) && k <= |row|
    ensures forall s | 0 <= s < |r.cache| && Forked(r, p, row, k).cache[s].cnt > 0 :: r.cache[s].cnt > 0
  {
    if k > 0 {
      ForkedLive(r, p, row, k - 1);
      if row[k - 1] != NIL {
        var d := row[k - 1];
        assert DescOk(r.filp, r.descs, d);
        DescLive(r, d);
      }
    }
  }

  lemma DescLive(r: Tables, d: nat)
    requires RefsOk(r) && d < |r.descs| && r.descs[d].inode != NIL
    ensures r.descs[d].cnt > 0 && r.cache[r.descs[d].inode].cnt > 0
  {
    assert DescOk(r.filp, r.descs, d);
    RefCountPositive(r.filp, d);
    var p, fd :| Holds(r.filp, p, fd, d);
    HolderCounts(r, r.descs[d].inode, p, fd);
  }

  lemma {:induction false} ExitedLive(r: Tables, p: nat, k: nat)
    requires p < |r.filp| && k <= |r.filp[p]|
    ensures |Exited(r, p, k).cache| == |r.cache|
    ensures forall s | 0 <= s < |r.cache| :: Exited(r, p, k).cache[s].cnt <= r.cache[s].cnt
    decreases |r.filp[p]| - k
  {
    if k < |r.filp[p]| {
      if r.filp[p][k] == NIL {
        ExitedLive(r, p, k + 1);
      } else if CanDrop(r, p, k) {
        ExitedLive(Drop(r, p, k), p, k + 1);
      }
    }
  }

  /** A new position counts nothing. */
  function Repositioned(r: Tables, d: nat, pos: nat): Tables
    requires d < |r.descs|
  {
    r.(descs := r.descs[d := r.descs[d].(pos := pos)])
  }

  lemma RepositionKeeps(r: Tables, d: nat, pos: nat)
    requires RefsOk(r) && d < |r.descs|
    ensures RefsOk(Repositioned(r, d, pos))
            && forall s | 0 <= s < |r.cache| :: Leak(Repositioned(r, d, pos), s) == Leak(r, s)
  {
    var r' := Repositioned(r, d, pos);
    forall x | 0 <= x < |r.descs| ensures DescOk(r'.filp, r'.descs, x) && r'.descs[x].inode == r.descs[x].inode {
      assert DescOk(r.filp, r.descs, x);
    }
    forall s | 0 <= s < |r.cache| ensures Leak(r', s) == Leak(r, s) {
      InodeRefsUpdate(r.descs, d, r'.descs[d], s);
    }
  }
}
