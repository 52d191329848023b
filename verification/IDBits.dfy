/** Comparing the bits of two IDs (ids/bits.go, ids/id.go): whole bytes and masks instead of single
    bits. */
module IDBits {
  import opened Basics

  const NUM_BITS := 256

  type ID = s: seq<bv8> | |s| == 32 witness seq(32, i => 0)

  /** The eight bits of a byte, the least significant first, and those of an ID. */
  type Byte = s: seq<bool> | |s| == 8 witness [false, false, false, false, false, false, false, false]

  type Bits = s: seq<Byte> | |s| == 32 witness seq(32, i => [false, false, false, false, false, false, false, false])

  /** Bit `k` of a byte. */
  predicate IsSet(x: bv8, k: nat)
    requires k < 8
  {
    if k == 0 then x & 1 != 0
    else if k == 1 then x & 2 != 0
    else if k == 2 then x & 4 != 0
    else if k == 3 then x & 8 != 0
    else if k == 4 then x & 16 != 0
    else if k == 5 then x & 32 != 0
    else if k == 6 then x & 64 != 0
    else x & 128 != 0
  }

  function ToBits(x: bv8): (bits: Byte)
    ensures forall k :: 0 <= k < 8 ==> bits[k] == IsSet(x, k)
  {
    seq(8, k requires 0 <= k < 8 => IsSet(x, k))
  }

  function BitsOf(id: ID): (bits: Bits)
    ensures forall q :: 0 <= q < 32 ==> bits[q] == ToBits(id[q])
  {
    seq(32, q requires 0 <= q < 32 => ToBits(id[q]))
  }

  /** Bit 7 is the most significant bit of byte 0. */
  function Bit(bits: Bits, i: nat): bool
    requires i < NUM_BITS
  {
    bits[i / 8][i % 8]
  }

  /** ID.Bit: shifting a byte down brings the bit to the lowest place. */
  lemma ShiftedBit(x: bv8, k: nat)
    requires k < 8
    ensures (x >> k) & 1 == 1 <==> IsSet(x, k)
  {
    if k == 0 {
    } else if k == 1 {
    } else if k == 2 {
    } else if k == 3 {
    } else if k == 4 {
    } else if k == 5 {
    } else if k == 6 {
    } else {
    }
  }

  // ---------- bytes as bits ----------

  function And(x: Byte, y: Byte): (z: Byte)
    ensures forall k :: 0 <= k < 8 ==> z[k] == (x[k] && y[k])
  {
    seq(8, k requires 0 <= k < 8 => x[k] && y[k])
  }

  function Xor(x: Byte, y: Byte): (z: Byte)
    ensures forall k :: 0 <= k < 8 ==> z[k] == (x[k] != y[k])
  {
    seq(8, k requires 0 <= k < 8 => x[k] != y[k])
  }

  lemma AndBit(x: bv8, y: bv8, k: nat)
    requires k < 8
    ensures IsSet(x & y, k) <==> IsSet(x, k) && IsSet(y, k)
  {
    if k == 0 {
    } else if k == 1 {
    } else if k == 2 {
    } else if k == 3 {
    } else if k == 4 {
    } else if k == 5 {
    } else if k == 6 {
    } else {
    }
  }

  lemma XorBit(x: bv8, y: bv8, k: nat)
    requires k < 8
    ensures IsSet(x ^ y, k) <==> IsSet(x, k) != IsSet(y, k)
  {
    if k == 0 {
    } else if k == 1 {
    } else if k == 2 {
    } else if k == 3 {
    } else if k == 4 {
    } else if k == 5 {
    } else if k == 6 {
    } else {
    }
  }

  lemma AndBits(x: bv8, y: bv8)
    ensures ToBits(x & y) == And(ToBits(x), ToBits(y))
  {
    forall k | 0 <= k < 8 ensures ToBits(x & y)[k] == And(ToBits(x), ToBits(y))[k] { AndBit(x, y, k); }
  }

  lemma XorBits(x: bv8, y: bv8)
    ensures ToBits(x ^ y) == Xor(ToBits(x), ToBits(y))
  {
    forall k | 0 <= k < 8 ensures ToBits(x ^ y)[k] == Xor(ToBits(x), ToBits(y))[k] { XorBit(x, y, k); }
  }

  /** A byte is determined by its bits. */
  lemma AllBits(x: bv8, y: bv8)
    requires && IsSet(x, 0) == IsSet(y, 0) && IsSet(x, 1) == IsSet(y, 1)
             && IsSet(x, 2) == IsSet(y, 2) && IsSet(x, 3) == IsSet(y, 3)
             && IsSet(x, 4) == IsSet(y, 4) && IsSet(x, 5) == IsSet(y, 5)
             && IsSet(x, 6) == IsSet(y, 6) && IsSet(x, 7) == IsSet(y, 7)
    ensures x == y
  {
  }

  lemma SameBits(x: bv8, y: bv8)
    requires ToBits(x) == ToBits(y)
    ensures x == y
  {
    forall k | 0 <= k < 8 ensures IsSet(x, k) == IsSet(y, k) { assert ToBits(x)[k] == ToBits(y)[k]; }
    AllBits(x, y);
  }

  lemma SameMasked(m: bv8, x: bv8, y: bv8)
    ensures m & x == m & y <==> And(ToBits(m), ToBits(x)) == And(ToBits(m), ToBits(y))
  {
    AndBits(m, x);
    AndBits(m, y);
    if ToBits(m & x) == ToBits(m & y) { SameBits(m & x, m & y); }
  }

  // ---------- masks ----------

  /** The low byte of a number with `k` zeros at the end and ones before them. */
  function StartMask(k: nat): bv8
    requires k <= 8
  {
    0xFF << k
  }

  /** The low byte of a number with `k + 1` ones at the end. */
  function StopMask(k: nat): bv8
    requires k < 8
  {
    (1 << (k + 1)) - 1
  }

  lemma StartMaskSelects(k: nat)
    requires k <= 8
    ensures Selects(ToBits(StartMask(k)), k, 7)
  {
    if k == 0 {
    } else if k == 1 {
    } else if k == 2 {
    } else if k == 3 {
    } else if k == 4 {
    } else if k == 5 {
    } else if k == 6 {
    } else if k == 7 {
    } else {
    }
  }

  lemma StopMaskSelects(k: nat)
    requires k < 8
    ensures Selects(ToBits(StopMask(k)), 0, k)
  {
    if k == 0 {
    } else if k == 1 {
    } else if k == 2 {
    } else if k == 3 {
    } else if k == 4 {
    } else if k == 5 {
    } else if k == 6 {
    } else {
    }
  }

  lemma BothMasksSelect(lo: nat, hi: nat)
    requires lo <= 8 && hi < 8
    ensures Selects(ToBits(StartMask(lo) & StopMask(hi)), lo, hi)
  {
    StartMaskSelects(lo);
    StopMaskSelects(hi);
    AndBits(StartMask(lo), StopMask(hi));
  }

  /** The mask selects the bits from `lo` to `hi`. */
  ghost predicate Selects(m: Byte, lo: nat, hi: nat) {
    forall k :: 0 <= k < 8 ==> (m[k] <==> lo <= k <= hi)
  }

  /** The first bit that is set, at or above `k`. */
  function FirstSet(x: Byte, k: nat := 0): (r: nat)
    requires k <= 8
    ensures k <= r <= 8 && (r < 8 ==> x[r]) && forall i :: k <= i < r ==> !x[i]
    decreases 8 - k
  {
    if k == 8 || x[k] then k else FirstSet(x, k + 1)
  }

  /** bits.TrailingZeros8 */
  function TrailingZeros(x: bv8): (r: nat)
    ensures r <= 8 && (r < 8 ==> ToBits(x)[r]) && forall i :: 0 <= i < r ==> !ToBits(x)[i]
  {
    FirstSet(ToBits(x))
  }

  // ---------- ranges of bits ----------

  /** The IDs agree in the bits from `start` up to `stop`. */
  ghost predicate AgreeOn(a: Bits, b: Bits, start: nat, stop: nat)
    requires stop <= NUM_BITS
  {
    forall i :: start <= i < stop ==> Bit(a, i) == Bit(b, i)
  }

  lemma BitAt(a: Bits, q: nat, k: nat)
    requires q < 32 && k < 8
    ensures Bit(a, 8 * q + k) == a[q][k]
  {
  }

  lemma AgreeInByte(a: Bits, b: Bits, q: nat, lo: nat, n: nat)
    requires q < 32 && lo <= 8 && n <= 8
    ensures AgreeOn(a, b, 8 * q + lo, 8 * q + n) <==> forall k :: lo <= k < n ==> a[q][k] == b[q][k]
  {
    if AgreeOn(a, b, 8 * q + lo, 8 * q + n) {
      forall k | lo <= k < n ensures a[q][k] == b[q][k] {
        BitAt(a, q, k);
        BitAt(b, q, k);
      }
    }
    if forall k :: lo <= k < n ==> a[q][k] == b[q][k] {
      forall i | 8 * q + lo <= i < 8 * q + n ensures Bit(a, i) == Bit(b, i) {
        BitAt(a, q, i - 8 * q);
        BitAt(b, q, i - 8 * q);
      }
    }
  }

  /** Comparing a byte under a mask compares a range of bits. */
  lemma ByteAgrees(a: Bits, b: Bits, q: nat, m: Byte, lo: nat, hi: nat)
    requires q < 32 && lo <= 8 && hi < 8 && Selects(m, lo, hi)
    ensures And(m, a[q]) == And(m, b[q]) <==> AgreeOn(a, b, 8 * q + lo, 8 * q + hi + 1)
  {
    MaskedEqual(m, a[q], b[q], lo, hi);
    AgreeInByte(a, b, q, lo, hi + 1);
  }

  lemma MaskedEqual(m: Byte, x: Byte, y: Byte, lo: nat, hi: nat)
    requires hi < 8 && Selects(m, lo, hi)
    ensures And(m, x) == And(m, y) <==> forall k :: lo <= k < hi + 1 ==> x[k] == y[k]
  {
    if And(m, x) == And(m, y) {
      forall k | lo <= k < hi + 1 ensures x[k] == y[k] { assert And(m, x)[k] == And(m, y)[k]; }
    }
  }

  lemma WholeByte(a: Bits, b: Bits, q: nat)
    requires q < 32
    ensures a[q] == b[q] <==> AgreeOn(a, b, 8 * q, 8 * q + 8)
  {
    AgreeInByte(a, b, q, 0, 8);
  }

  lemma {:induction false} WholeBytes(a: Bits, b: Bits, i: nat, j: nat)
    requires i <= j <= 32
    ensures a[i..j] == b[i..j] <==> AgreeOn(a, b, 8 * i, 8 * j)
    decreases j - i
  {
    if i < j {
      WholeBytes(a, b, i, j - 1);
      WholeByte(a, b, j - 1);
      assert a[i..j] == a[i..j - 1] + [a[j - 1]] && b[i..j] == b[i..j - 1] + [b[j - 1]];
      AgreeSplit(a, b, 8 * i, 8 * (j - 1), 8 * j);
    }
  }

  lemma AgreeSplit(a: Bits, b: Bits, start: nat, mid: nat, stop: nat)
    requires start <= mid <= stop <= NUM_BITS
    ensures AgreeOn(a, b, start, stop) <==> AgreeOn(a, b, start, mid) && AgreeOn(a, b, mid, stop)
  {
  }

  // ---------- EqualSubset ----------

  /** Division of int, which rounds towards zero. */
  function ByteIndex(i: int): (q: int)
    ensures -8 < i - 8 * q < 8 && (i >= 0 ==> q >= 0 && 8 * q <= i) && (i <= 0 ==> q <= 0 && i <= 8 * q)
  {
    if i >= 0 then i / 8 else -(-i / 8)
  }

  /** The bit within its byte. The remainder of a negative number is taken as unsigned, and a shift by so much
      leaves nothing. */
  function BitIndex(i: int): (k: nat)
    ensures k <= 8 && (i >= 0 ==> k < 8 && i == 8 * ByteIndex(i) + k)
  {
    if i >= 0 || i % 8 == 0 then i % 8 else 8
  }

  /** The bit from which IDs are compared: a start within the byte before the first bit skips the first byte. */
  function From(start: int): nat { if start >= 0 then start else 8 }

  /** The IDs are equal on the range from bit `start` up to bit `stop`. If the start is a byte or more before the
      first bit, this panics, unless the whole bytes of the range are compared before that and differ. */
  method EqualSubset(start: int, stop: int, a: ID, b: ID) returns (r: Option<bool>)
    ensures r.None? <==>
            && start <= -8 && 0 < stop <= NUM_BITS
            && (start <= -16 || AgreeOn(BitsOf(a), BitsOf(b), 0, stop - 1 - (stop - 1) % 8))
    ensures r.Some? ==>
              (r.value <==>
               || start >= stop || stop <= 0
               || (start > -8 && stop <= NUM_BITS && AgreeOn(BitsOf(a), BitsOf(b), From(start), stop)))
  {
    var last := stop - 1;
    if start > last || last < 0 { return Some(true); }
    if last >= NUM_BITS { return Some(false); }
    var i, j := ByteIndex(start), ByteIndex(last);
    if i < 0 {
      r := EqualBefore(i, j, a, b);
      return;
    }
    var startBit, stopBit := BitIndex(start), BitIndex(last);
    var startMask, stopMask := StartMask(startBit), StopMask(stopBit);
    var equal;
    if i == j {
      equal := EqualByte(a, b, i, startMask & stopMask, startBit, stopBit);
    } else {
      equal := EqualBytes(a, b, i, j, startMask, stopMask, startBit, stopBit);
    }
    return Some(equal);
  }

  /** There is no byte `i`, but the bytes behind it are compared first. */
  method EqualBefore(i: int, j: nat, a: ID, b: ID) returns (r: Option<bool>)
    requires i < 0 && j < 32
    ensures r.None? <==> i < -1 || AgreeOn(BitsOf(a), BitsOf(b), 0, 8 * j)
    ensures r.Some? ==> !r.value
  {
    BytesAgree(a, b, 0, j);
    if i + 1 < j {
      if i + 1 < 0 { return None; }
      if a[i + 1..j] != b[i + 1..j] { return Some(false); }
    }
    return None;
  }

  method EqualByte(a: ID, b: ID, i: nat, mask: bv8, ghost lo: nat, ghost hi: nat) returns (equal: bool)
    requires i < 32 && lo <= 8 && hi < 8 && mask == StartMask(lo) & StopMask(hi)
    ensures equal <==> AgreeOn(BitsOf(a), BitsOf(b), 8 * i + lo, 8 * i + hi + 1)
  {
    BothMasksSelect(lo, hi);
    MaskedAgrees(a, b, i, mask, lo, hi);
    equal := mask & a[i] == mask & b[i];
  }

  /** A range over several bytes: the end of the first, all between and the beginning of the last. */
  method EqualBytes(a: ID, b: ID, i: nat, j: nat, startMask: bv8, stopMask: bv8, ghost lo: nat, ghost hi: nat)
    returns (equal: bool)
    requires i < j < 32 && lo <= 8 && hi < 8 && startMask == StartMask(lo) && stopMask == StopMask(hi)
    ensures equal <==> AgreeOn(BitsOf(a), BitsOf(b), 8 * i + lo, 8 * j + hi + 1)
  {
    ManyBytes(a, b, i, j, lo, hi, startMask, stopMask);
    if i + 1 < j && a[i + 1..j] != b[i + 1..j] { return false; }
    equal := startMask & a[i] == startMask & b[i] && stopMask & a[j] == stopMask & b[j];
  }

  /** Comparing a byte under a mask compares a range of bits. */
  lemma MaskedAgrees(a: ID, b: ID, q: nat, m: bv8, lo: nat, hi: nat)
    requires q < 32 && lo <= 8 && hi < 8 && Selects(ToBits(m), lo, hi)
    ensures m & a[q] == m & b[q] <==> AgreeOn(BitsOf(a), BitsOf(b), 8 * q + lo, 8 * q + hi + 1)
  {
    SameMasked(m, a[q], b[q]);
    ByteAgrees(BitsOf(a), BitsOf(b), q, ToBits(m), lo, hi);
  }

  lemma BytesAgree(a: ID, b: ID, i: nat, j: nat)
    requires i <= j <= 32
    ensures a[i..j] == b[i..j] <==> AgreeOn(BitsOf(a), BitsOf(b), 8 * i, 8 * j)
  {
    var x, y := BitsOf(a), BitsOf(b);
    WholeBytes(x, y, i, j);
    if x[i..j] == y[i..j] {
      forall q | i <= q < j ensures a[q] == b[q] {
        assert x[i..j][q - i] == y[i..j][q - i];
        SameBits(a[q], b[q]);
      }
    } else {
      var q :| i <= q < j && x[q] != y[q];
      assert a[i..j][q - i] != b[i..j][q - i];
    }
  }

  lemma FirstByte(a: ID, b: ID, q: nat, lo: nat, m: bv8)
    requires q < 32 && lo <= 8 && m == StartMask(lo)
    ensures m & a[q] == m & b[q] <==> AgreeOn(BitsOf(a), BitsOf(b), 8 * q + lo, 8 * q + 8)
  {
    StartMaskSelects(lo);
    MaskedAgrees(a, b, q, m, lo, 7);
  }

  lemma LastByte(a: ID, b: ID, q: nat, hi: nat, m: bv8)
    requires q < 32 && hi < 8 && m == StopMask(hi)
    ensures m & a[q] == m & b[q] <==> AgreeOn(BitsOf(a), BitsOf(b), 8 * q, 8 * q + hi + 1)
  {
    StopMaskSelects(hi);
    MaskedAgrees(a, b, q, m, 0, hi);
  }

  lemma ManyBytes(a: ID, b: ID, i: nat, j: nat, lo: nat, hi: nat, startMask: bv8, stopMask: bv8)
    requires i < j < 32 && lo <= 8 && hi < 8 && startMask == StartMask(lo) && stopMask == StopMask(hi)
    ensures a[i + 1..j] == b[i + 1..j] && startMask & a[i] == startMask & b[i] && stopMask & a[j] == stopMask & b[j]
            <==> AgreeOn(BitsOf(a), BitsOf(b), 8 * i + lo, 8 * j + hi + 1)
  {
    FirstByte(a, b, i, lo, startMask);
    LastByte(a, b, j, hi, stopMask);
    BytesAgree(a, b, i + 1, j);
    AgreeSplit(BitsOf(a), BitsOf(b), 8 * i + lo, 8 * (i + 1), 8 * j + hi + 1);
    AgreeSplit(BitsOf(a), BitsOf(b), 8 * (i + 1), 8 * j, 8 * j + hi + 1);
  }

  // ---------- FirstDifferenceSubset ----------

  /** `i` is the first difference of the range. */
  ghost predicate IsFirst(a: Bits, b: Bits, start: nat, stop: nat, i: nat)
    requires stop <= NUM_BITS
  {
    start <= i < stop && Bit(a, i) != Bit(b, i) && AgreeOn(a, b, start, i)
  }

  lemma FirstInByte(a: Bits, b: Bits, q: nat, m: Byte, lo: nat, hi: nat, r: nat)
    requires q < 32 && lo <= 8 && hi < 8 && Selects(m, lo, hi) && And(m, a[q]) != And(m, b[q])
    requires r == FirstSet(Xor(And(m, a[q]), And(m, b[q])))
    ensures IsFirst(a, b, 8 * q + lo, 8 * q + hi + 1, r + 8 * q)
  {
    MaskedEqual(m, a[q], b[q], lo, hi);
    BitAt(a, q, r);
    BitAt(b, q, r);
    AgreeInByte(a, b, q, lo, r);
  }

  /** The first difference of a range within the IDs, if there is one. If the range starts a byte or more before
      the first bit, this panics. */
  method FirstDifferenceSubset(start: int, stop: int, a: ID, b: ID) returns (r: Option<(nat, bool)>)
    ensures r.None? <==> start <= -8 && 0 < stop <= NUM_BITS
    ensures r.Some? ==>
              (r.value.1 <==>
               start < stop && 0 < stop <= NUM_BITS && !AgreeOn(BitsOf(a), BitsOf(b), From(start), stop))
    ensures r.Some? && r.value.1 ==> IsFirst(BitsOf(a), BitsOf(b), From(start), stop, r.value.0)
    ensures r.Some? && !r.value.1 ==> r.value.0 == 0
  {
    var last := stop - 1;
    if start > last || last < 0 || last >= NUM_BITS { return Some((0, false)); }
    var q, j := ByteIndex(start), ByteIndex(last);
    if q < 0 { return None; }
    var i, found;
    if q == j {
      i, found := FirstInOne(a, b, q, BitIndex(start), BitIndex(last));
    } else {
      i, found := FirstInMany(a, b, q, j, BitIndex(start), BitIndex(last));
    }
    return Some((i, found));
  }

  method FirstInOne(a: ID, b: ID, q: nat, startBit: nat, stopBit: nat) returns (i: nat, found: bool)
    requires q < 32 && startBit <= 8 && stopBit < 8
    ensures found <==> !AgreeOn(BitsOf(a), BitsOf(b), 8 * q + startBit, 8 * q + stopBit + 1)
    ensures found ==> IsFirst(BitsOf(a), BitsOf(b), 8 * q + startBit, 8 * q + stopBit + 1, i)
    ensures !found ==> i == 0
  {
    BothMasksSelect(startBit, stopBit);
    i, found := FirstUnderMask(a, b, q, StartMask(startBit) & StopMask(stopBit), startBit, stopBit);
  }

  /** The first byte, all between and the last. */
  method FirstInMany(a: ID, b: ID, q: nat, j: nat, startBit: nat, stopBit: nat) returns (i: nat, found: bool)
    requires q < j < 32 && startBit <= 8 && stopBit < 8
    ensures found <==> !AgreeOn(BitsOf(a), BitsOf(b), 8 * q + startBit, 8 * j + stopBit + 1)
    ensures found ==> IsFirst(BitsOf(a), BitsOf(b), 8 * q + startBit, 8 * j + stopBit + 1, i)
    ensures !found ==> i == 0
  {
    ghost var start, stop := 8 * q + startBit, 8 * j + stopBit + 1;
    StartMaskSelects(startBit);
    StopMaskSelects(stopBit);
    AgreeSplit(BitsOf(a), BitsOf(b), start, 8 * (q + 1), stop);
    i, found := FirstUnderMask(a, b, q, StartMask(startBit), startBit, 7);
    if found { return; }
    AgreeSplit(BitsOf(a), BitsOf(b), 8 * (q + 1), 8 * j, stop);
    i, found := FirstInterior(a, b, q + 1, j);
    if found { return; }
    i, found := FirstUnderMask(a, b, j, StopMask(stopBit), 0, stopBit);
  }

  /** The first difference of a byte under a mask. */
  method FirstUnderMask(a: ID, b: ID, q: nat, m: bv8, ghost lo: nat, ghost hi: nat) returns (i: nat, found: bool)
    requires q < 32 && lo <= 8 && hi < 8 && Selects(ToBits(m), lo, hi)
    ensures found <==> !AgreeOn(BitsOf(a), BitsOf(b), 8 * q + lo, 8 * q + hi + 1)
    ensures found ==> IsFirst(BitsOf(a), BitsOf(b), 8 * q + lo, 8 * q + hi + 1, i)
    ensures !found ==> i == 0
  {
    var r;
    r, found := FirstOfByte(m, a[q], b[q]);
    ByteAgrees(BitsOf(a), BitsOf(b), q, ToBits(m), lo, hi);
    if !found { return 0, false; }
    FirstInByte(BitsOf(a), BitsOf(b), q, ToBits(m), lo, hi, r);
    i := r + 8 * q;
  }

  method FirstOfByte(m: bv8, x: bv8, y: bv8) returns (r: nat, found: bool)
    ensures found <==> And(ToBits(m), ToBits(x)) != And(ToBits(m), ToBits(y))
    ensures found ==> r == FirstSet(Xor(And(ToBits(m), ToBits(x)), And(ToBits(m), ToBits(y))))
  {
    SameMasked(m, x, y);
    if m & x == m & y { return 0, false; }
    r := TrailingZeros((m & x) ^ (m & y));
    found := true;
    FirstMasked(m, x, y, r);
  }

  lemma FirstMasked(m: bv8, x: bv8, y: bv8, r: nat)
    requires m & x != m & y && r == TrailingZeros((m & x) ^ (m & y))
    ensures And(ToBits(m), ToBits(x)) != And(ToBits(m), ToBits(y))
    ensures r == FirstSet(Xor(And(ToBits(m), ToBits(x)), And(ToBits(m), ToBits(y))))
  {
    SameMasked(m, x, y);
    AndBits(m, x);
    AndBits(m, y);
    XorBits(m & x, m & y);
  }

  /** The bytes between the first and the last. */
  method FirstInterior(a: ID, b: ID, from: nat, to: nat) returns (i: nat, found: bool)
    requires from <= to <= 32
    ensures found <==> !AgreeOn(BitsOf(a), BitsOf(b), 8 * from, 8 * to)
    ensures found ==> IsFirst(BitsOf(a), BitsOf(b), 8 * from, 8 * to, i)
    ensures !found ==> i == 0
  {
    var k := from;
    while k < to
      invariant from <= k <= to && AgreeOn(BitsOf(a), BitsOf(b), 8 * from, 8 * k)
    {
      i, found := FirstOfWhole(a, b, k);
      if found {
        FirstOverall(BitsOf(a), BitsOf(b), 8 * from, 8 * k, 8 * k + 8, 8 * to, i);
        return;
      }
      AgreeSplit(BitsOf(a), BitsOf(b), 8 * from, 8 * k, 8 * k + 8);
      k := k + 1;
    }
    return 0, false;
  }

  lemma FirstOverall(a: Bits, b: Bits, start: nat, from: nat, to: nat, stop: nat, i: nat)
    requires start <= from <= to <= stop <= NUM_BITS && AgreeOn(a, b, start, from) && IsFirst(a, b, from, to, i)
    ensures IsFirst(a, b, start, stop, i) && !AgreeOn(a, b, start, stop)
  {
    AgreeSplit(a, b, start, from, i);
  }

  method FirstOfWhole(a: ID, b: ID, k: nat) returns (i: nat, found: bool)
    requires k < 32
    ensures found <==> !AgreeOn(BitsOf(a), BitsOf(b), 8 * k, 8 * k + 8)
    ensures found ==> IsFirst(BitsOf(a), BitsOf(b), 8 * k, 8 * k + 8, i)
  {
    var r;
    r, found := FirstOfBytes(a[k], b[k]);
    i := r + 8 * k;
    FirstOfBits(BitsOf(a), BitsOf(b), k, ToBits(a[k]), ToBits(b[k]), r, i);
  }

  lemma FirstOfBits(x: Bits, y: Bits, q: nat, xq: Byte, yq: Byte, r: nat, i: nat)
    requires q < 32 && x[q] == xq && y[q] == yq && i == r + 8 * q && (xq != yq ==> r == FirstSet(Xor(xq, yq)))
    ensures xq != yq <==> !AgreeOn(x, y, 8 * q, 8 * q + 8)
    ensures xq != yq ==> IsFirst(x, y, 8 * q, 8 * q + 8, i)
  {
    WholeByte(x, y, q);
    if xq != yq { FirstDiffers(x, y, q, r); }
  }

  method FirstOfBytes(x: bv8, y: bv8) returns (r: nat, found: bool)
    ensures found <==> ToBits(x) != ToBits(y)
    ensures found ==> r == FirstSet(Xor(ToBits(x), ToBits(y)))
  {
    if x == y { return 0, false; }
    if ToBits(x) == ToBits(y) { SameBits(x, y); }
    XorBits(x, y);
    return TrailingZeros(x ^ y), true;
  }

  lemma FirstDiffers(x: Bits, y: Bits, q: nat, r: nat)
    requires q < 32 && x[q] != y[q] && r == FirstSet(Xor(x[q], y[q]))
    ensures IsFirst(x, y, 8 * q, 8 * q + 8, r + 8 * q)
  {
    assert exists k :: 0 <= k < 8 && x[q][k] != y[q][k];
    BitAt(x, q, r);
    BitAt(y, q, r);
    AgreeInByte(x, y, q, 0, r);
  }

  /** A difference is found exactly if the IDs are not equal on the range; beyond the last bit the two
      functions part: neither are the IDs equal there nor is a difference found. */
  method FoundIffNotEqual(start: int, stop: int, a: ID, b: ID) returns (equal: Option<bool>, first: Option<(nat, bool)>)
    ensures equal.Some? && first.Some? ==>
              ((first.value.1 <==> !equal.value) <==> stop <= NUM_BITS || start >= stop)
    ensures stop > NUM_BITS && start < stop ==> equal == Some(false) && first == Some((0, false))
    ensures equal.None? ==> first.None?
  {
    equal := EqualSubset(start, stop, a, b);
    first := FirstDifferenceSubset(start, stop, a, b);
  }
}
