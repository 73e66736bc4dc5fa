/** The bits of a byte and of a run of bytes, and what the byte operations of the bitmap code do to them. */
module Bits {

  type byte = bv8

  predicate Bit(b: byte, k: nat)
    requires k < 8
  {
    (b >> k) & 1 == 1
  }

  // ---------------------------------------------------------------- one byte

  lemma SetBit(b: byte, k: nat, t: nat)
    requires k < 8 && t < 8
    ensures Bit(b | (1 << k), t) <==> t == k || Bit(b, t)
  {
    assert k == 0 || k == 1 || k == 2 || k == 3 || k == 4 || k == 5 || k == 6 || k == 7;
    assert t == 0 || t == 1 || t == 2 || t == 3 || t == 4 || t == 5 || t == 6 || t == 7;
  }

  /** The mask that clears bit k keeps every other bit. */
  lemma ClearMask(k: nat, t: nat)
    requires k < 8 && t < 8
    ensures Bit(!(1 << k), t) <==> t != k
  {
    assert k == 0 || k == 1 || k == 2 || k == 3 || k == 4 || k == 5 || k == 6 || k == 7;
    assert t == 0 || t == 1 || t == 2 || t == 3 || t == 4 || t == 5 || t == 6 || t == 7;
  }

  lemma AndBit(a: byte, b: byte, t: nat)
    requires t < 8
    ensures Bit(a & b, t) <==> Bit(a, t) && Bit(b, t)
  {
    assert t == 0 || t == 1 || t == 2 || t == 3 || t == 4 || t == 5 || t == 6 || t == 7;
  }

  lemma ClearBit(b: byte, k: nat, t: nat)
    requires k < 8 && t < 8
    ensures Bit(b & !(1 << k), t) <==> t != k && Bit(b, t)
  {
    ClearMask(k, t);
    AndBit(b, !(1 << k), t);
  }

  lemma FullByte(b: byte)
    ensures b == 0xff <==> forall t: nat | t < 8 :: Bit(b, t)
  {
    if b != 0xff {
      assert !(Bit(b, 0) && Bit(b, 1) && Bit(b, 2) && Bit(b, 3) && Bit(b, 4) && Bit(b, 5) && Bit(b, 6) && Bit(b, 7));
    } else {
      forall t: nat | t < 8 ensures Bit(b, t) {
        assert t == 0 || t == 1 || t == 2 || t == 3 || t == 4 || t == 5 || t == 6 || t == 7;
      }
    }
  }

  lemma ZeroByte(t: nat)
    requires t < 8
    ensures !Bit(0, t)
  {
    assert t == 0 || t == 1 || t == 2 || t == 3 || t == 4 || t == 5 || t == 6 || t == 7;
  }

  /** Masking away the low n bits. */
  lemma ClearLow(b: byte, n: nat, t: nat)
    requires n < 8 && t < 8
    ensures Bit(b & (0xff << n), t) <==> t >= n && Bit(b, t)
  {
    assert n == 0 || n == 1 || n == 2 || n == 3 || n == 4 || n == 5 || n == 6 || n == 7;
    assert t == 0 || t == 1 || t == 2 || t == 3 || t == 4 || t == 5 || t == 6 || t == 7;
  }

  /** The mask of the low n bits is contained in b exactly when they are all set. */
  lemma LowMask(b: byte, n: nat)
    requires n < 8
    ensures b & !(0xff << n) == !(0xff << n) <==> forall t: nat | t < n :: Bit(b, t)
  {
    assert n == 0 || n == 1 || n == 2 || n == 3 || n == 4 || n == 5 || n == 6 || n == 7;
    if forall t: nat | t < n :: Bit(b, t) {
      assert n > 0 ==> Bit(b, 0);
      assert n > 1 ==> Bit(b, 1);
      assert n > 2 ==> Bit(b, 2);
      assert n > 3 ==> Bit(b, 3);
      assert n > 4 ==> Bit(b, 4);
      assert n > 5 ==> Bit(b, 5);
      assert n > 6 ==> Bit(b, 6);
    } else {
      var t: nat :| t < n && !Bit(b, t);
      assert t == 0 || t == 1 || t == 2 || t == 3 || t == 4 || t == 5 || t == 6;
    }
  }

  // ---------------------------------------------------------------- runs of bytes

  /** Bit number i of a run of bytes, the lowest bit of the first byte being number 0. */
  predicate BitOf(bytes: seq<byte>, i: nat)
    requires i < 8 * |bytes|
  {
    Bit(bytes[i / 8], i % 8)
  }

  function BitsOf(bytes: seq<byte>): seq<bool> {
    seq(8 * |bytes|, i requires 0 <= i < 8 * |bytes| => BitOf(bytes, i))
  }

  // ---------------------------------------------------------------- runs of bits

  predicate AllSet(bits: seq<bool>, lo: nat, hi: nat) {
    hi <= |bits| && forall i | lo <= i < hi :: bits[i]
  }

  predicate AllClear(bits: seq<bool>, lo: nat, hi: nat) {
    hi <= |bits| && forall i | lo <= i < hi :: !bits[i]
  }

  /** `bits` with lo..hi set to v. */
  function Fill(bits: seq<bool>, lo: int, hi: int, v: bool): seq<bool> {
    seq(|bits|, i requires 0 <= i < |bits| => if lo <= i < hi then v else bits[i])
  }

  /** f is the first clear bit, or the length of the run if there is none. */
  predicate Gap(bits: seq<bool>, f: nat) {
    AllSet(bits, 0, f) && (f < |bits| ==> !bits[f])
  }

  /** The number of the first clear bit at or after i, or the length of the run if there is none. */
  function FirstClear(bits: seq<bool>, i: nat): (f: nat)
    requires i <= |bits|
    ensures i <= f <= |bits| && AllSet(bits, i, f) && (f < |bits| ==> !bits[f])
    decreases |bits| - i
  {
    if i == |bits| || !bits[i] then i else FirstClear(bits, i + 1)
  }

  /** Freeing what was just allocated gives the map back, and allocating what was just freed does too. */
  lemma FillBack(bits: seq<bool>, lo: nat, hi: nat)
    ensures AllClear(bits, lo, hi) ==> Fill(Fill(bits, lo, hi, true), lo, hi, false) == bits
    ensures AllSet(bits, lo, hi) ==> Fill(Fill(bits, lo, hi, false), lo, hi, true) == bits
  {
    assert AllClear(bits, lo, hi) ==> Fill(Fill(bits, lo, hi, true), lo, hi, false) == bits;
  }

  // ---------------------------------------------------------------- byte operations as operations on bits

  /** A byte that differs from the old one in bits lo..hi only changes those bits of the run. */
  lemma ByteReplaced(bytes: seq<byte>, j: nat, v: byte, lo: nat, hi: nat, on: bool)
    requires j < |bytes| && lo <= hi <= 8
    requires forall t: nat | t < 8 :: Bit(v, t) == if lo <= t < hi then on else Bit(bytes[j], t)
    ensures BitsOf(bytes[j := v]) == Fill(BitsOf(bytes), 8 * j + lo, 8 * j + hi, on)
  {
    var got, want := BitsOf(bytes[j := v]), Fill(BitsOf(bytes), 8 * j + lo, 8 * j + hi, on);
    forall i | 0 <= i < 8 * |bytes| ensures got[i] == want[i] {
      assert i == 8 * (i / 8) + i % 8;
      if i / 8 == j { assert Bit(v, i % 8) == if lo <= i % 8 < hi then on else Bit(bytes[j], i % 8); }
    }
  }

  lemma SetBitIn(bytes: seq<byte>, j: nat, k: nat)
    requires j < |bytes| && k < 8
    ensures BitsOf(bytes[j := bytes[j] | (1 << k)]) == BitsOf(bytes)[8 * j + k := true]
  {
    forall t: nat | t < 8 ensures Bit(bytes[j] | (1 << k), t) == if k <= t < k + 1 then true else Bit(bytes[j], t) {
      SetBit(bytes[j], k, t);
    }
    ByteReplaced(bytes, j, bytes[j] | (1 << k), k, k + 1, true);
  }

  lemma ClearBitIn(bytes: seq<byte>, j: nat, k: nat)
    requires j < |bytes| && k < 8
    ensures BitsOf(bytes[j := bytes[j] & !(1 << k)]) == BitsOf(bytes)[8 * j + k := false]
  {
    forall t: nat | t < 8 ensures Bit(bytes[j] & !(1 << k), t) == if k <= t < k + 1 then false else Bit(bytes[j], t) {
      ClearBit(bytes[j], k, t);
    }
    ByteReplaced(bytes, j, bytes[j] & !(1 << k), k, k + 1, false);
  }

  lemma ClearByteIn(bytes: seq<byte>, j: nat)
    requires j < |bytes|
    ensures BitsOf(bytes[j := 0]) == Fill(BitsOf(bytes), 8 * j, 8 * j + 8, false)
  {
    forall t: nat | t < 8 ensures !Bit(0, t) {
      ZeroByte(t);
    }
    ByteReplaced(bytes, j, 0, 0, 8, false);
  }

  lemma ClearLowIn(bytes: seq<byte>, j: nat, n: nat)
    requires j < |bytes| && n < 8
    ensures BitsOf(bytes[j := bytes[j] & (0xff << n)]) == Fill(BitsOf(bytes), 8 * j, 8 * j + n, false)
  {
    forall t: nat | t < 8 ensures Bit(bytes[j] & (0xff << n), t) == if 0 <= t < n then false else Bit(bytes[j], t) {
      ClearLow(bytes[j], n, t);
    }
    ByteReplaced(bytes, j, bytes[j] & (0xff << n), 0, n, false);
  }

  lemma FullByteIn(bytes: seq<byte>, j: nat)
    requires j < |bytes|
    ensures bytes[j] == 0xff <==> AllSet(BitsOf(bytes), 8 * j, 8 * j + 8)
  {
    FullByte(bytes[j]);
    forall t: nat | t < 8 ensures BitsOf(bytes)[8 * j + t] == Bit(bytes[j], t) {
      assert (8 * j + t) / 8 == j && (8 * j + t) % 8 == t;
    }
    if AllSet(BitsOf(bytes), 8 * j, 8 * j + 8) {
      forall t: nat | t < 8 ensures Bit(bytes[j], t) {
        assert BitsOf(bytes)[8 * j + t];
      }
    }
  }

  lemma LowMaskIn(bytes: seq<byte>, j: nat, n: nat)
    requires j < |bytes| && n < 8 && AllSet(BitsOf(bytes), 8 * j, 8 * j + n)
    ensures bytes[j] & !(0xff << n) == !(0xff << n)
  {
    LowMask(bytes[j], n);
    forall t: nat | t < n ensures Bit(bytes[j], t) {
      assert BitsOf(bytes)[8 * j + t];
      assert (8 * j + t) / 8 == j && (8 * j + t) % 8 == t;
    }
  }

  lemma BytesFromBits(a: seq<byte>, b: seq<byte>)
    requires |a| == |b| && BitsOf(a) == BitsOf(b)
    ensures a == b
  {
    forall j | 0 <= j < |a| ensures a[j] == b[j] {
      forall t: nat | t < 8 ensures Bit(a[j], t) == Bit(b[j], t) {
        assert (8 * j + t) / 8 == j && (8 * j + t) % 8 == t;
        assert BitsOf(a)[8 * j + t] == BitsOf(b)[8 * j + t];
      }
      SameByte(a[j], b[j]);
    }
  }

  lemma SameByte(a: byte, b: byte)
    requires forall t: nat | t < 8 :: Bit(a, t) == Bit(b, t)
    ensures a == b
  {
    assert Bit(a, 0) == Bit(b, 0) && Bit(a, 1) == Bit(b, 1) && Bit(a, 2) == Bit(b, 2) && Bit(a, 3) == Bit(b, 3);
    assert Bit(a, 4) == Bit(b, 4) && Bit(a, 5) == Bit(b, 5) && Bit(a, 6) == Bit(b, 6) && Bit(a, 7) == Bit(b, 7);
  }
}
