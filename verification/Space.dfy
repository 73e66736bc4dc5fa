/** Whether the extents of a run lie on the device: first fit keeps them there as long as there are not too many. */
module Space {
  import opened Base
  import opened Bits
  import opened Extents
  import opened InodeCache
  import opened Refs
  import opened Files
  import opened FileOps
  import opened Requests
  import opened FsRuns
  import opened Contents

  /** The first bits of the extents in use. */
  ghost function Blocks(fs: Fs, n1st: nat): set<nat> {
    Starts(fs.disk, Taken(fs.inodeMap), n1st)
  }

  /** A request adds at most the block that first fit takes. */
  lemma RequestBlocks(fs: Fs, n1st: nat, q: Request, x: nat)
    requires Legal(fs, n1st, q) && n1st > 0 && x in Blocks(Handled(fs, n1st, q), n1st)
    ensures x in Blocks(fs, n1st) || (Makes(fs, n1st, q) != {} && x == FirstClear(fs.sectorMap, 0))
  {
    var fs' := Handled(fs, n1st, q);
    var used' := Taken(fs'.inodeMap);
    var k :| k in used' && Owns(fs'.disk, used', k, n1st) && StartBit(fs'.disk, used', k, n1st) == x;
    if k in Makes(fs, n1st, q) {
      MadeBlock(fs, n1st, q, k);
    } else if k == ROOT_INODE {
      RootBlock(fs, n1st);
      RequestKeeps(fs, n1st, q);
      RootBlock(fs', n1st);
    } else {
      OwnedBefore(fs, n1st, q, k);
      RequestKeepsInode(fs, n1st, q, k);
      assert StartBit(fs.disk, Taken(fs.inodeMap), k, n1st) == x;
    }
  }

  lemma MadeBlock(fs: Fs, n1st: nat, q: Request, k: nat)
    requires Legal(fs, n1st, q) && n1st > 0 && k in Makes(fs, n1st, q)
    ensures 0 < k <= |Handled(fs, n1st, q).disk|
            && Handled(fs, n1st, q).disk[k - 1].start == FirstClear(fs.sectorMap, 0) - 1 + n1st
  {
    CreateKeeps(fs, n1st, q.path);
    MadeDisk(fs, n1st, q.path);
    NewIsUncached(fs, n1st);
    assert fs.sectorMap[0];
  }

  lemma RootBlock(fs: Fs, n1st: nat)
    requires FsOk(fs, n1st)
    ensures 1 in Blocks(fs, n1st) && ROOT_INODE <= |fs.disk| && fs.disk[ROOT_INODE - 1].start == n1st
  {
    assert Owns(fs.disk, Taken(fs.inodeMap), ROOT_INODE, n1st);
    assert StartBit(fs.disk, Taken(fs.inodeMap), ROOT_INODE, n1st) == 1;
  }

  lemma StepOnDevice(fs: Fs, n1st: nat, q: Request, nrSects: nat)
    requires Legal(fs, n1st, q) && n1st > 0 && AllOnDevice(Blocks(fs, n1st), n1st, nrSects)
    requires |Blocks(Handled(fs, n1st, q), n1st)| <= Capacity(n1st, nrSects)
    ensures AllOnDevice(Blocks(Handled(fs, n1st, q), n1st), n1st, nrSects)
  {
    var blocks' := Blocks(Handled(fs, n1st, q), n1st);
    forall x | x in blocks' ensures x > 0 && OnDevice(x, n1st, nrSects) {
      RequestBlocks(fs, n1st, q, x);
      if x !in Blocks(fs, n1st) { NewBlock(fs, n1st, q, nrSects); }
    }
  }

  /** The blocks in use stay in use when a file is made. */
  lemma NewBlock(fs: Fs, n1st: nat, q: Request, nrSects: nat)
    requires Legal(fs, n1st, q) && n1st > 0 && AllOnDevice(Blocks(fs, n1st), n1st, nrSects)
    requires Makes(fs, n1st, q) != {} && |Blocks(Handled(fs, n1st, q), n1st)| <= Capacity(n1st, nrSects)
    ensures FirstClear(fs.sectorMap, 0) > 0 && OnDevice(FirstClear(fs.sectorMap, 0), n1st, nrSects)
  {
    var b, blocks, blocks' := FirstClear(fs.sectorMap, 0), Blocks(fs, n1st), Blocks(Handled(fs, n1st, q), n1st);
    FirstClearStartsBlock(fs.sectorMap, blocks);
    forall x | x in blocks + {b} ensures x in blocks' {
      StaysBlock(fs, n1st, q, x);
    }
    SubsetSize(blocks + {b}, blocks');
    FirstFitOnDevice(fs.sectorMap, blocks, n1st, nrSects);
  }

  lemma StaysBlock(fs: Fs, n1st: nat, q: Request, x: nat)
    requires Legal(fs, n1st, q) && n1st > 0 && Makes(fs, n1st, q) != {}
    requires x in Blocks(fs, n1st) || x == FirstClear(fs.sectorMap, 0)
    ensures x in Blocks(Handled(fs, n1st, q), n1st)
  {
    var fs' := Handled(fs, n1st, q);
    RequestTaken(fs, n1st, q);
    RequestKeeps(fs, n1st, q);
    if x in Blocks(fs, n1st) {
      var used := Taken(fs.inodeMap);
      var k :| k in used && Owns(fs.disk, used, k, n1st) && StartBit(fs.disk, used, k, n1st) == x;
      if k == ROOT_INODE {
        RootBlock(fs, n1st);
        RootBlock(fs', n1st);
      } else {
        RequestKeepsInode(fs, n1st, q, k);
        assert Owns(fs'.disk, Taken(fs'.inodeMap), k, n1st);
      }
    } else {
      var k := FirstClear(fs.inodeMap, 0);
      assert k in Makes(fs, n1st, q);
      MadeOwns(fs, n1st, q, k);
    }
  }

  lemma MadeOwns(fs: Fs, n1st: nat, q: Request, k: nat)
    requires Legal(fs, n1st, q) && n1st > 0 && k in Makes(fs, n1st, q)
    ensures var fs' := Handled(fs, n1st, q); FirstClear(fs.sectorMap, 0) in Blocks(fs', n1st)
  {
    var fs' := Handled(fs, n1st, q);
    MadeBlock(fs, n1st, q, k);
    RequestTaken(fs, n1st, q);
    CreateKeeps(fs, n1st, q.path);
    MadeDisk(fs, n1st, q.path);
    assert fs.sectorMap[0];
    assert Owns(fs'.disk, Taken(fs'.inodeMap), k, n1st);
    assert StartBit(fs'.disk, Taken(fs'.inodeMap), k, n1st) == FirstClear(fs.sectorMap, 0);
  }

  lemma {:induction false} StaysOnDevice(run: seq<Fs>, reqs: seq<Request>, n1st: nat, nrSects: nat, i: nat)
    requires IsRun(run, reqs, n1st) && i < |run|
    requires forall j | 0 <= j <= i :: |Blocks(run[j], n1st)| <= Capacity(n1st, nrSects)
    ensures AllOnDevice(Blocks(run[i], n1st), n1st, nrSects)
  {
    if i == 0 {
      FirstOnDevice(run[0], n1st, nrSects);
    } else {
      StaysOnDevice(run, reqs, n1st, nrSects, i - 1);
      assert StepAt(run, reqs, n1st, i - 1);
      StepOnDevice(run[i - 1], n1st, reqs[i - 1], nrSects);
    }
  }

  lemma FirstOnDevice(fs: Fs, n1st: nat, nrSects: nat)
    requires Initial(fs, n1st) && n1st > 0 && |Blocks(fs, n1st)| <= Capacity(n1st, nrSects)
    ensures AllOnDevice(Blocks(fs, n1st), n1st, nrSects)
  {
    InitialOk(fs, n1st);
    RootBlock(fs, n1st);
    forall x | x in Blocks(fs, n1st) ensures x == 1 {
      var k :| k in Taken(fs.inodeMap) && Owns(fs.disk, Taken(fs.inodeMap), k, n1st)
        && StartBit(fs.disk, Taken(fs.inodeMap), k, n1st) == x;
      if k != ROOT_INODE { NoFilesAtFirst(fs, n1st, k); }
    }
    assert Blocks(fs, n1st) == {1};
  }

  /** Over every run, all extents have lain on the device of nrSects sectors so far exactly when there were never more
      of them than it has room for. */
  lemma RunOnDevice(run: seq<Fs>, reqs: seq<Request>, n1st: nat, nrSects: nat, i: nat)
    requires IsRun(run, reqs, n1st) && i < |run|
    ensures (forall j | 0 <= j <= i :: AllOnDevice(Blocks(run[j], n1st), n1st, nrSects))
            <==> (forall j | 0 <= j <= i :: |Blocks(run[j], n1st)| <= Capacity(n1st, nrSects))
  {
    if forall j | 0 <= j <= i :: |Blocks(run[j], n1st)| <= Capacity(n1st, nrSects) {
      forall j | 0 <= j <= i ensures AllOnDevice(Blocks(run[j], n1st), n1st, nrSects) {
        StaysOnDevice(run, reqs, n1st, nrSects, j);
      }
    }
    forall j | 0 <= j <= i && AllOnDevice(Blocks(run[j], n1st), n1st, nrSects)
      ensures |Blocks(run[j], n1st)| <= Capacity(n1st, nrSects)
    {
      RunOk(run, reqs, n1st, j);
      DeviceHolds(Blocks(run[j], n1st), n1st, nrSects);
    }
  }
}
