/** Sectors of bytes and the little-endian words the file system keeps in them. */
module Disks {

  type byte = x: int | 0 <= x < 256

  type u32 = x: int | 0 <= x < 0x1_0000_0000

  /** The value a 32-bit register holds after an unsigned sum or difference. */
  function Wrap(x: int): (r: u32)
    ensures 0 <= x < 0x1_0000_0000 ==> r == x
  {
    x % 0x1_0000_0000
  }

  lemma WrapAdd(x: int, n: int)
    ensures Wrap(Wrap(x) + n) == Wrap(x + n)
  {
    var q := x / 0x1_0000_0000;
    assert x == 0x1_0000_0000 * q + Wrap(x);
    assert x + n == 0x1_0000_0000 * q + (Wrap(x) + n);
  }

  const SECTOR_SIZE: nat := 512

  type Sector = s: seq<byte> | |s| == SECTOR_SIZE witness seq(SECTOR_SIZE, i => 0)

  function Zeros(n: nat): (s: seq<byte>)
    ensures |s| == n
  {
    seq(n, i => 0)
  }

  /** Byte k of a word in memory order. */
  function ByteOf(w: u32, k: nat): byte
    requires k < 4
  {
    if k == 0 then w % 256 else if k == 1 then w / 256 % 256 else if k == 2 then w / 65536 % 256 else w / 16777216
  }

  function Word(b0: byte, b1: byte, b2: byte, b3: byte): u32 {
    b0 + 256 * b1 + 65536 * b2 + 16777216 * b3
  }

  lemma WordOfBytes(w: u32)
    ensures Word(ByteOf(w, 0), ByteOf(w, 1), ByteOf(w, 2), ByteOf(w, 3)) == w
  {
    var q1, q2 := w / 256, w / 65536;
    assert w == 256 * q1 + w % 256;
    assert q2 == q1 / 256 && q1 == 256 * q2 + q1 % 256;
    assert w / 16777216 == q2 / 256 && q2 == 256 * (q2 / 256) + q2 % 256;
  }

  /** Words laid out as bytes, as memcpy of an array of words leaves them. */
  function Bytes(ws: seq<u32>): (s: seq<byte>)
    ensures |s| == 4 * |ws|
  {
    seq(4 * |ws|, p requires 0 <= p < 4 * |ws| => ByteOf(ws[p / 4], p % 4))
  }

  function WordAt(s: seq<byte>, i: nat): u32
    requires 4 * i + 4 <= |s|
  {
    Word(s[4 * i], s[4 * i + 1], s[4 * i + 2], s[4 * i + 3])
  }

  /** Bytes read back as n words. */
  function Words(s: seq<byte>, n: nat): (ws: seq<u32>)
    requires 4 * n <= |s|
    ensures |ws| == n
  {
    seq(n, i requires 0 <= i < n => WordAt(s, i))
  }

  lemma WordsOfBytes(ws: seq<u32>)
    ensures Words(Bytes(ws), |ws|) == ws
  {
    var s := Bytes(ws);
    forall i | 0 <= i < |ws| ensures WordAt(s, i) == ws[i] {
      WordOfBytes(ws[i]);
      assert (4 * i) / 4 == i && (4 * i + 1) / 4 == i && (4 * i + 2) / 4 == i && (4 * i + 3) / 4 == i;
    }
  }

  /** memcpy(buf + at, src, |src|). */
  function Patch(buf: seq<byte>, at: nat, src: seq<byte>): (r: seq<byte>)
    requires at + |src| <= |buf|
    ensures |r| == |buf|
    ensures forall p | 0 <= p < |buf| :: r[p] == if at <= p < at + |src| then src[p - at] else buf[p]
  {
    buf[..at] + src + buf[at + |src|..]
  }
}
