/** Model of lib/kernel/bitmap.c: a byte array read and written one bit at a time. */
module Bitmaps {

  /** The source's `BITMAP_MASK << k`. */
  function Mask(k: nat): bv8 {
    if k == 0 then 1 else Mask(k - 1) << 1
  }

  lemma MaskValues()
    ensures Mask(0) == 0x01 && Mask(1) == 0x02 && Mask(2) == 0x04 && Mask(3) == 0x08
    ensures Mask(4) == 0x10 && Mask(5) == 0x20 && Mask(6) == 0x40 && Mask(7) == 0x80
  {
    assert Mask(1) == Mask(0) << 1 && Mask(2) == Mask(1) << 1 && Mask(3) == Mask(2) << 1;
    assert Mask(4) == Mask(3) << 1 && Mask(5) == Mask(4) << 1 && Mask(6) == Mask(5) << 1;
  }

  /** Bit k, counted from the least significant. */
  predicate BitOf(b: bv8, k: nat) {
    if k == 0 then b & 1 != 0 else BitOf(b >> 1, k - 1)
  }

  lemma EightBits(b: bv8)
    ensures BitOf(b, 0) == (b & 0x01 != 0) && BitOf(b, 1) == (b & 0x02 != 0)
    ensures BitOf(b, 2) == (b & 0x04 != 0) && BitOf(b, 3) == (b & 0x08 != 0)
    ensures BitOf(b, 4) == (b & 0x10 != 0) && BitOf(b, 5) == (b & 0x20 != 0)
    ensures BitOf(b, 6) == (b & 0x40 != 0) && BitOf(b, 7) == (b & 0x80 != 0)
  {
    var b1, b2, b3 := b >> 1, b >> 1 >> 1, b >> 1 >> 1 >> 1;
    var b4, b5, b6 := b3 >> 1, b3 >> 1 >> 1, b3 >> 1 >> 1 >> 1;
    assert BitOf(b6 >> 1, 0) == BitOf(b6, 1) == BitOf(b5, 2) == BitOf(b4, 3);
    assert BitOf(b6, 0) == BitOf(b5, 1) == BitOf(b4, 2) == BitOf(b3, 3);
    assert BitOf(b5, 0) == BitOf(b4, 1) == BitOf(b3, 2) == BitOf(b2, 3);
    assert BitOf(b4, 0) == BitOf(b3, 1) == BitOf(b2, 2) == BitOf(b1, 3);
    assert BitOf(b4, 3) == BitOf(b3, 4) == BitOf(b2, 5) == BitOf(b1, 6);
    assert BitOf(b3, 3) == BitOf(b2, 4) == BitOf(b1, 5);
    assert BitOf(b2, 3) == BitOf(b1, 4);
    assert BitOf(b3, 0) == BitOf(b2, 1) == BitOf(b1, 2);
    assert BitOf(b2, 0) == BitOf(b1, 1);
  }

  lemma MaskTest(b: bv8, k: nat)
    requires k < 8
    ensures BitOf(b, k) == (b & Mask(k) != 0)
  {
    EightBits(b);
    MaskValues();
  }

  lemma SetBitInByte(b: bv8, k: nat, j: nat)
    requires k < 8 && j < 8
    ensures BitOf(b | Mask(k), j) == (j == k || BitOf(b, j))
  {
    MaskTest(b, j);
    MaskTest(b | Mask(k), j);
    MaskValues();
  }

  lemma ClearBitInByte(b: bv8, k: nat, j: nat)
    requires k < 8 && j < 8
    ensures BitOf(b & !Mask(k), j) == (j != k && BitOf(b, j))
  {
    MaskTest(b, j);
    MaskTest(b & !Mask(k), j);
    MaskValues();
  }

  lemma FullByte(b: bv8)
    ensures b == 0xff <==> forall k: nat | k < 8 :: BitOf(b, k)
  {
    EightBits(b);
    if forall k: nat | k < 8 :: BitOf(b, k) {
      assert BitOf(b, 0) && BitOf(b, 1) && BitOf(b, 2) && BitOf(b, 3);
      assert BitOf(b, 4) && BitOf(b, 5) && BitOf(b, 6) && BitOf(b, 7);
    }
    if b == 0xff {
      forall k: nat | k < 8 ensures BitOf(b, k) { MaskTest(b, k); }
    }
  }

  /** The set of indices whose bit is 1. */
  ghost function UsedIn(bytes: seq<bv8>): set<nat> {
    set i: nat | i < 8 * |bytes| && BitOf(bytes[i / 8], i % 8)
  }

  /** Rewriting one byte so that only its bit k changes changes only one member of the set. */
  lemma WriteBit(bytes: seq<bv8>, q: nat, k: nat, value: bool, b: bv8)
    requires q < |bytes| && k < 8
    requires forall l: nat | l < 8 :: BitOf(b, l) == if l == k then value else BitOf(bytes[q], l)
    ensures UsedIn(bytes[q := b]) == if value then UsedIn(bytes) + {8 * q + k} else UsedIn(bytes) - {8 * q + k}
  {
    forall j: nat | j < 8 * |bytes|
      ensures j in UsedIn(bytes[q := b]) <==> if j == 8 * q + k then value else j in UsedIn(bytes)
    {
      if j / 8 == q {
        assert BitOf(b, j % 8) == if j % 8 == k then value else BitOf(bytes[q], j % 8);
      }
    }
  }

  /** One byte with its bit k set or cleared. */
  method ByteWithBit(b: bv8, k: nat, value: bool) returns (r: bv8)
    requires k < 8
    ensures forall l: nat | l < 8 :: BitOf(r, l) == if l == k then value else BitOf(b, l)
  {
    r := if value then b | Mask(k) else b & !Mask(k);
    forall l: nat | l < 8 ensures BitOf(r, l) == if l == k then value else BitOf(b, l) {
      SetBitInByte(b, k, l);
      ClearBitInByte(b, k, l);
    }
  }

  /** `cnt` clear bits in a row, all inside a bitmap of `size` bits. */
  ghost predicate Run(used: set<nat>, size: nat, start: nat, cnt: nat) {
    start + cnt <= size && forall j | start <= j < start + cnt :: j !in used
  }

  ghost predicate HasRun(used: set<nat>, size: nat, cnt: nat) {
    exists s: nat :: Run(used, size, s, cnt)
  }

  ghost predicate FirstFit(used: set<nat>, size: nat, start: nat, cnt: nat) {
    Run(used, size, start, cnt) && forall s: nat | s < start :: !Run(used, size, s, cnt)
  }

  lemma FirstFitMeans(used: set<nat>, size: nat, start: nat, cnt: nat)
    requires FirstFit(used, size, start, cnt)
    ensures start + cnt <= size && (forall b: nat | start <= b < start + cnt :: b !in used)
    ensures forall s: nat | s < start :: Interval(s, cnt) * used != {}
  {
    forall s: nat | s < start ensures Interval(s, cnt) * used != {} {
      assert !Run(used, size, s, cnt);
      var j: nat :| s <= j < s + cnt && j in used;
      assert j in Interval(s, cnt) * used;
    }
  }

  /** The one fit the scan does not see: the run is the whole byte-aligned tail and every byte before it is full. */
  ghost predicate WholeTail(used: set<nat>, size: nat, cnt: nat) {
    exists f: nat :: 8 * f + cnt == size && (forall j: nat | j < 8 * f :: j in used) && Run(used, size, 8 * f, cnt)
  }

  /** With a clear bit in byte f, and the tail of cnt bits behind that byte, some byte before the tail is not full. */
  lemma NotTail(used: set<nat>, bytes: nat, f: nat, cnt: nat, hole: nat)
    requires f + cnt / 8 < bytes && 8 * f <= hole < 8 * f + 8 && hole !in used
    ensures !WholeTail(used, 8 * bytes, cnt)
  {
    forall g: nat | 8 * g + cnt == 8 * bytes ensures hole < 8 * g {
    }
  }

  class Bitmap {
    const bits: array<bv8>

    constructor (n: nat)
      ensures fresh(bits) && bits.Length == n && Used() == {}
    {
      bits := new bv8[n](_ => 0);
      new;
      forall k: nat | k < 8 ensures !BitOf(0, k) { MaskTest(0, k); }
    }

    ghost function Size(): nat {
      8 * bits.Length
    }

    ghost function Used(): set<nat>
      reads bits
    {
      UsedIn(bits[..])
    }

    method Test(i: nat) returns (b: bool)
      requires i < Size()
      ensures b <==> i in Used()
    {
      b := bits[i / 8] & Mask(i % 8) != 0;
      MaskTest(bits[i / 8], i % 8);
    }

    method Set(i: nat, value: bool)
      requires i < Size()
      modifies bits
      ensures Used() == if value then old(Used()) + {i} else old(Used()) - {i}
    {
      var byte, off := i / 8, i % 8;
      var b := ByteWithBit(bits[byte], off, value);
      WriteBit(bits[..], byte, off, value, b);
      bits[byte] := b;
      assert bits[..] == old(bits[..])[byte := b];
    }

    /** -1 stands for the source's -1. */
    method Scan(cnt: nat) returns (r: int)
      requires cnt >= 1
      ensures -1 <= r
      ensures r >= 0 ==> FirstFit(Used(), Size(), r, cnt)
      ensures r == -1 <==> !HasRun(Used(), Size(), cnt) || WholeTail(Used(), Size(), cnt)
      ensures r >= 0 ==> r + cnt <= Size() && (forall b: nat | r <= b < r + cnt :: b !in Used())
                         && forall s: nat | s < r :: Interval(s, cnt) * Used() != {}
    {
      var len := bits.Length;
      var byte := 0;
      while byte < len && bits[byte] == 0xff
        invariant byte <= len
        invariant forall j: nat | j < 8 * byte :: j in Used()
      {
        FullByte(bits[byte]);
        assert forall j: nat | 8 * byte <= j < 8 * byte + 8 :: j / 8 == byte && BitOf(bits[byte], j % 8);
        byte := byte + 1;
      }
      ghost var f := byte;
      if f < len { FirstHole(f); }
      if byte + cnt / 8 >= len {
        NoRoom(f, cnt);
        return -1;
      }
      assert !WholeTail(Used(), Size(), cnt) by {
        ghost var hole: nat :| 8 * f <= hole < 8 * f + 8 && hole !in Used();
        NotTail(Used(), len, f, cnt, hole);
      }
      var off, count, i := 0, 0, 8 * byte;
      forall s: nat | s < i ensures !Run(Used(), Size(), s, cnt) {
        assert s in Used();
      }
      while byte < len
        invariant byte <= len && off < 8 && i == 8 * byte + off && count <= i && (byte == len ==> off == 0)
        invariant 8 * f <= i - count && count < cnt
        invariant forall j: nat | i - count <= j < i :: j !in Used()
        invariant forall s: nat | s < i - count :: !Run(Used(), Size(), s, cnt)
        decreases Size() - i
      {
        ghost var count0 := count;
        MaskTest(bits[byte], off);
        assert i / 8 == byte && i % 8 == off;
        if bits[byte] & Mask(off) != 0 {
          count := 0;
          assert i in Used();
          forall s: nat | s < i + 1 ensures !Run(Used(), Size(), s, cnt) {
            assert s >= i - count0 ==> s <= i < s + cnt;
          }
        } else {
          count := count + 1;
          assert i !in Used();
        }
        if count == cnt {
          assert Run(Used(), Size(), i - cnt + 1, cnt);
          FirstFitMeans(Used(), Size(), i - cnt + 1, cnt);
          return i - cnt + 1;
        }
        if off == 7 {
          off := 0;
          byte := byte + 1;
        } else {
          off := off + 1;
        }
        i := i + 1;
      }
      return -1;
    }

    /** The first byte the skipping loop stops at has a clear bit. */
    lemma FirstHole(f: nat)
      requires f < bits.Length && bits[f] != 0xff
      ensures exists j: nat :: 8 * f <= j < 8 * f + 8 && j !in Used()
    {
      FullByte(bits[f]);
      var k: nat :| k < 8 && !BitOf(bits[f], k);
      assert (8 * f + k) / 8 == f && (8 * f + k) % 8 == k;
      assert 8 * f + k !in Used();
    }

    lemma NoRoom(f: nat, cnt: nat)
      requires cnt >= 1 && f <= bits.Length && f + cnt / 8 >= bits.Length
      requires forall j: nat | j < 8 * f :: j in Used()
      ensures !HasRun(Used(), Size(), cnt) || WholeTail(Used(), Size(), cnt)
    {
      if s: nat :| Run(Used(), Size(), s, cnt) {
        assert s !in Used();
        assert 8 * f <= s && s + cnt <= Size();
        assert s == 8 * f && 8 * f + cnt == Size();
      }
    }
  }

  /** For one bit the scan is exact: the missed tail is a whole number of bytes. */
  lemma OneBitIsNeverMissed(used: set<nat>, bytes: nat)
    ensures !WholeTail(used, 8 * bytes, 1)
  {
  }

  /** The scan of an empty one-byte bitmap for eight bits: there is a run, and it is the missed tail. */
  lemma WholeBitmapIsMissed()
    ensures HasRun({}, 8, 8) && WholeTail({}, 8, 8)
  {
    assert Run({}, 8, 8 * 0, 8);
  }

  /** Every count but a multiple of 8 is scanned exactly. */
  lemma MissedOnlyWholeBytes(used: set<nat>, bytes: nat, cnt: nat)
    requires WholeTail(used, 8 * bytes, cnt)
    ensures cnt % 8 == 0
    ensures forall s: nat | cnt > 0 && Run(used, 8 * bytes, s, cnt) :: s + cnt == 8 * bytes
  {
    var f: nat :| 8 * f + cnt == 8 * bytes && (forall j: nat | j < 8 * f :: j in used) && Run(used, 8 * bytes, 8 * f, cnt);
    forall s: nat | cnt > 0 && Run(used, 8 * bytes, s, cnt) ensures s + cnt == 8 * bytes {
      assert s !in used;
    }
  }

  lemma FirstClear(used: set<nat>, size: nat, bit: nat)
    requires FirstFit(used, size, bit, 1)
    ensures bit < size && bit !in used && forall b: nat | b < bit :: b in used
  {
    assert bit !in used;
    forall b: nat | b < bit ensures b in used {
      assert b !in used ==> Run(used, size, b, 1);
    }
  }

  /** A scan for one bit fails only when every bit is set. */
  lemma OneBit(used: set<nat>, bytes: nat)
    ensures !HasRun(used, 8 * bytes, 1) <==> FreeIn(used, 8 * bytes) == {}
    ensures !WholeTail(used, 8 * bytes, 1)
  {
    OneBitIsNeverMissed(used, bytes);
    var free := FreeIn(used, 8 * bytes);
    if b: nat :| b in free {
      assert Run(used, 8 * bytes, b, 1);
    }
    if s: nat :| Run(used, 8 * bytes, s, 1) {
      assert s in free;
    }
  }

  /** The bits a scan can still find. */
  ghost function FreeIn(used: set<nat>, size: nat): (s: set<nat>) {
    set b: nat | b < size && b !in used
  }

  lemma TakeFree(used: set<nat>, size: nat, bit: nat)
    requires bit < size && bit !in used
    ensures FreeIn(used + {bit}, size) == FreeIn(used, size) - {bit} && bit in FreeIn(used, size)
    ensures |FreeIn(used + {bit}, size)| == |FreeIn(used, size)| - 1
  {
    assert FreeIn(used + {bit}, size) == FreeIn(used, size) - {bit};
  }

  /** The lowest clear bit is found and set, or there is none. */
  method AllocBit(bitmap: Bitmap) returns (bit: int)
    modifies bitmap.bits
    ensures bit == -1 <==> FreeIn(old(bitmap.Used()), bitmap.Size()) == {}
    ensures bit == -1 ==> bitmap.Used() == old(bitmap.Used())
    ensures bit != -1 ==> 0 <= bit < bitmap.Size() && bit !in old(bitmap.Used()) && bitmap.Used() == old(bitmap.Used()) + {bit}
    ensures bit != -1 ==> forall b: nat | b < bit :: b in old(bitmap.Used())
  {
    hide UsedIn, HasRun, WholeTail, FirstFit, FreeIn;
    bit := bitmap.Scan(1);
    OneBit(bitmap.Used(), bitmap.bits.Length);
    if bit != -1 {
      FirstClear(bitmap.Used(), bitmap.Size(), bit);
      bitmap.Set(bit, true);
    }
  }

  predicate Between(start: nat, i: nat, n: nat) {
    start <= i < start + n
  }

  function Interval(start: nat, n: nat): (r: set<nat>)
    ensures forall i: nat :: i in r <==> start <= i < start + n
  {
    set i: nat | i < start + n && Between(start, i, n)
  }

  lemma UsedInSize(bytes: seq<bv8>)
    ensures forall b | b in UsedIn(bytes) :: b < 8 * |bytes|
  {
  }
}
