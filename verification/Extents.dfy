/**
 Why first-fit allocation works: every file takes 2048 sectors and the first extent starts at bit 1, so the
 sector map is always a row of whole blocks.
 */
module Extents {
  import opened Bits

  const NR_DEFAULT_FILE_SECTS := 2048

  /** The first bit of the block that bit b > 0 belongs to. */
  function BlockOf(b: nat): nat
    requires b > 0
  {
    1 + (b - 1) / NR_DEFAULT_FILE_SECTS * NR_DEFAULT_FILE_SECTS
  }

  predicate IsBlock(s: nat) {
    s > 0 && BlockOf(s) == s
  }

  /** The set bits are bit 0 and the blocks that start at `starts`, all inside the map. */
  ghost predicate Matches(bits: seq<bool>, starts: set<nat>) {
    && (forall b | 0 <= b < |bits| :: bits[b] <==> b == 0 || BlockOf(b) in starts)
    && (forall s | s in starts :: IsBlock(s) && s + NR_DEFAULT_FILE_SECTS <= |bits|)
  }

  lemma BlockFacts(b: nat)
    requires b > 0
    ensures IsBlock(BlockOf(b)) && BlockOf(b) <= b < BlockOf(b) + NR_DEFAULT_FILE_SECTS
  {
  }

  /** The bits of block s are the bits s .. s+2048. */
  lemma InBlock(s: nat, b: nat)
    requires IsBlock(s) && b > 0
    ensures BlockOf(b) == s <==> s <= b < s + NR_DEFAULT_FILE_SECTS
  {
  }

  /** The sector map as mkfs writes it: bit 0 and the root's block. */
  lemma MkfsMatches(bits: seq<bool>)
    requires |bits| >= 1 + NR_DEFAULT_FILE_SECTS
    requires forall b | 0 <= b < |bits| :: bits[b] <==> b < 1 + NR_DEFAULT_FILE_SECTS
    ensures Matches(bits, {1})
  {
    forall b: nat | 0 < b < |bits| ensures BlockOf(b) in {1} <==> b < 1 + NR_DEFAULT_FILE_SECTS {
      InBlock(1, b);
    }
  }

  /** The first clear bit starts a free block. */
  lemma FirstClearStartsBlock(bits: seq<bool>, starts: set<nat>)
    requires Matches(bits, starts) && FirstClear(bits, 0) < |bits|
    ensures var f := FirstClear(bits, 0); IsBlock(f) && f !in starts
    ensures forall s: nat | IsBlock(s) && s !in starts && s < |bits| :: FirstClear(bits, 0) <= s
  {
    var f := FirstClear(bits, 0);
    assert f > 0;
    BlockFacts(f);
    InBlock(BlockOf(f), BlockOf(f));
    assert !bits[BlockOf(f)];
    forall s: nat | IsBlock(s) && s !in starts && s < |bits| ensures f <= s {
      assert !bits[s];
    }
  }

  /** alloc_smap_bit's assertions hold exactly when some whole block is free; it then takes the lowest one. */
  lemma FirstFitExact(bits: seq<bool>, starts: set<nat>)
    requires Matches(bits, starts)
    ensures var f := FirstClear(bits, 0);
            AllClear(bits, f, f + NR_DEFAULT_FILE_SECTS) <==>
            exists s: nat :: IsBlock(s) && s !in starts && s + NR_DEFAULT_FILE_SECTS <= |bits|
  {
    var f := FirstClear(bits, 0);
    if f < |bits| {
      FirstClearStartsBlock(bits, starts);
      forall i | f <= i < f + NR_DEFAULT_FILE_SECTS && i < |bits| ensures !bits[i] {
        InBlock(f, i);
      }
      if s: nat :| IsBlock(s) && s !in starts && s + NR_DEFAULT_FILE_SECTS <= |bits| {
        assert f <= s;
      }
    } else {
      forall s: nat | IsBlock(s) && s + NR_DEFAULT_FILE_SECTS <= |bits| ensures s in starts {
        assert bits[s];
      }
    }
  }

  /** Allocation adds a block ... */
  lemma AllocKeeps(bits: seq<bool>, starts: set<nat>)
    requires Matches(bits, starts)
    requires var f := FirstClear(bits, 0); AllClear(bits, f, f + NR_DEFAULT_FILE_SECTS)
    ensures var f := FirstClear(bits, 0);
            f !in starts && IsBlock(f) && Matches(Fill(bits, f, f + NR_DEFAULT_FILE_SECTS, true), starts + {f})
  {
    var f := FirstClear(bits, 0);
    FirstClearStartsBlock(bits, starts);
    var bits' := Fill(bits, f, f + NR_DEFAULT_FILE_SECTS, true);
    forall b | 0 <= b < |bits| ensures bits'[b] <==> b == 0 || BlockOf(b) in starts + {f} {
      if b > 0 { InBlock(f, b); }
    }
  }

  /** ... and freeing takes it away; all its bits are set, as do_unlink asserts. */
  lemma FreeKeeps(bits: seq<bool>, starts: set<nat>, s: nat)
    requires Matches(bits, starts) && s in starts
    ensures AllSet(bits, s, s + NR_DEFAULT_FILE_SECTS)
    ensures Matches(Fill(bits, s, s + NR_DEFAULT_FILE_SECTS, false), starts - {s})
  {
    var bits' := Fill(bits, s, s + NR_DEFAULT_FILE_SECTS, false);
    forall i | s <= i < s + NR_DEFAULT_FILE_SECTS ensures bits[i] {
      InBlock(s, i);
    }
    forall b | 0 <= b < |bits| ensures bits'[b] <==> b == 0 || BlockOf(b) in starts - {s} {
      if b > 0 { InBlock(s, b); }
    }
  }

  // ---------------------------------------------------------------- how much fits on the device

  /** The first bits of the first n blocks. */
  function FirstBlocks(n: nat): set<nat> {
    if n == 0 then {} else FirstBlocks(n - 1) + {1 + (n - 1) * NR_DEFAULT_FILE_SECTS}
  }

  lemma {:induction false} FirstBlocksAre(n: nat)
    ensures |FirstBlocks(n)| == n
    ensures forall s: nat :: s in FirstBlocks(n) <==> IsBlock(s) && s < 1 + n * NR_DEFAULT_FILE_SECTS
  {
    if n > 0 {
      FirstBlocksAre(n - 1);
      forall s: nat ensures s in FirstBlocks(n) <==> IsBlock(s) && s < 1 + n * NR_DEFAULT_FILE_SECTS {
        NextBlock(n, s);
      }
    }
  }

  /** Between the first bits of two neighbouring blocks there is none. */
  lemma NextBlock(n: nat, s: nat)
    requires n > 0
    ensures IsBlock(s) && s < 1 + n * NR_DEFAULT_FILE_SECTS <==>
            (IsBlock(s) && s < 1 + (n - 1) * NR_DEFAULT_FILE_SECTS) || s == 1 + (n - 1) * NR_DEFAULT_FILE_SECTS
  {
  }

  lemma {:induction false} SubsetSize(a: set<nat>, b: set<nat>)
    requires a <= b
    ensures |a| <= |b|
  {
    if x :| x in a {
      SubsetSize(a - {x}, b - {x});
    }
  }

  /** The block of the sector map at bit s lies on a device of nrSects sectors whose first data sector is n1st. */
  predicate OnDevice(s: nat, n1st: nat, nrSects: nat)
    requires s > 0
  {
    s - 1 + n1st + NR_DEFAULT_FILE_SECTS <= nrSects
  }

  /** How many blocks lie on the device. */
  function Capacity(n1st: nat, nrSects: nat): nat {
    if nrSects < n1st then 0 else (nrSects - n1st) / NR_DEFAULT_FILE_SECTS
  }

  ghost predicate AllOnDevice(starts: set<nat>, n1st: nat, nrSects: nat) {
    forall s | s in starts :: s > 0 && OnDevice(s, n1st, nrSects)
  }

  lemma OnDeviceIs(s: nat, n1st: nat, nrSects: nat)
    requires IsBlock(s)
    ensures OnDevice(s, n1st, nrSects) <==> s < 1 + Capacity(n1st, nrSects) * NR_DEFAULT_FILE_SECTS
  {
  }

  /** No more blocks than the device has room for. */
  lemma DeviceHolds(starts: set<nat>, n1st: nat, nrSects: nat)
    requires AllOnDevice(starts, n1st, nrSects) && forall s | s in starts :: IsBlock(s)
    ensures |starts| <= Capacity(n1st, nrSects)
  {
    var c := Capacity(n1st, nrSects);
    FirstBlocksAre(c);
    forall s | s in starts ensures s in FirstBlocks(c) {
      OnDeviceIs(s, n1st, nrSects);
    }
    SubsetSize(starts, FirstBlocks(c));
  }

  /** First fit leaves no block free in front of the one it takes. */
  lemma FirstFitIsLow(bits: seq<bool>, starts: set<nat>)
    requires Matches(bits, starts) && FirstClear(bits, 0) < |bits|
    ensures FirstClear(bits, 0) < 1 + (|starts| + 1) * NR_DEFAULT_FILE_SECTS
  {
    FirstClearStartsBlock(bits, starts);
    var m := (FirstClear(bits, 0) - 1) / NR_DEFAULT_FILE_SECTS;
    FirstBlocksAre(m);
    forall s | s in FirstBlocks(m) ensures s in starts {
      assert s < FirstClear(bits, 0);
    }
    SubsetSize(FirstBlocks(m), starts);
  }

  /** The extent handed out lies on the device exactly while fewer blocks are in use than the device has; mkfs leaves
      map bits for more (fs/main.c:196). */
  lemma FirstFitOnDevice(bits: seq<bool>, starts: set<nat>, n1st: nat, nrSects: nat)
    requires Matches(bits, starts) && AllOnDevice(starts, n1st, nrSects) && FirstClear(bits, 0) < |bits|
    ensures FirstClear(bits, 0) > 0
    ensures OnDevice(FirstClear(bits, 0), n1st, nrSects) <==> |starts| < Capacity(n1st, nrSects)
  {
    var f := FirstClear(bits, 0);
    FirstClearStartsBlock(bits, starts);
    OnDeviceIs(f, n1st, nrSects);
    if OnDevice(f, n1st, nrSects) {
      DeviceHolds(starts + {f}, n1st, nrSects);
    } else {
      FirstFitIsLow(bits, starts);
      assert Capacity(n1st, nrSects) <= (f - 1) / NR_DEFAULT_FILE_SECTS <= |starts|;
    }
  }
}
