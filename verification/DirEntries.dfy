/** Directory entries of fs/dir.c: 24 bytes each, 21 to a sector, and a directory as the list of its 252 places. */
module DirEntries {
  import opened Disks
  import opened Wrappers

  const ENTRY_SIZE: nat := 24
  const PER_SECTOR: nat := 21
  const PLACES: nat := 252

  const FT_UNKNOWN: u32 := 0
  const FT_REGULAR: u32 := 1
  const FT_DIRECTORY: u32 := 2

  datatype Entry = Entry(name: string, ino: u32, kind: u32)

  const NO_ENTRY := Entry("", 0, FT_UNKNOWN)

  /** A name that fits its 16 bytes together with a terminating zero. */
  predicate IsName(s: string) {
    0 < |s| <= 15 && forall c | c in s :: 0 < c as int < 256
  }

  // ---------------------------------------------------------------- the bytes of an entry

  /** strlen, in a buffer that may lack a terminator. */
  function StrLen(s: seq<byte>): (n: nat)
    ensures n <= |s| && (forall i | 0 <= i < n :: s[i] != 0) && (n < |s| ==> s[n] == 0)
  {
    if s == [] || s[0] == 0 then 0 else 1 + StrLen(s[1..])
  }

  function Chars(s: seq<byte>): (r: string)
    ensures |r| == |s| && forall i | 0 <= i < |s| :: r[i] == s[i] as char
  {
    seq(|s|, i requires 0 <= i < |s| => s[i] as char)
  }

  /** The bytes of a name, padded with zeros to 16. */
  function NameBytes(name: string): (s: seq<byte>)
    requires |name| <= 16 && forall c | c in name :: c as int < 256
    ensures |s| == 16
  {
    seq<byte>(16, i requires 0 <= i < 16 => if i < |name| then CharByte(name, i) else 0)
  }

  function CharByte(name: string, i: nat): byte
    requires i < |name| && forall c | c in name :: c as int < 256
  {
    assert name[i] in name;
    name[i] as int
  }

  lemma NameOfBytes(name: string)
    requires name == "" || IsName(name)
    ensures Chars(NameBytes(name)[..StrLen(NameBytes(name))]) == name
  {
    var s := NameBytes(name);
    assert forall i | 0 <= i < |name| :: s[i] == CharByte(name, i) && name[i] in name;
    assert s[|name|] == 0;
    assert StrLen(s) == |name|;
  }

  function EntryBytes(e: Entry): (s: seq<byte>)
    requires e.name == "" || IsName(e.name)
    ensures |s| == ENTRY_SIZE
  {
    NameBytes(e.name) + Bytes([e.ino, e.kind])
  }

  function EntryOf(s: seq<byte>): Entry
    requires |s| == ENTRY_SIZE
  {
    Entry(Chars(s[..StrLen(s[..16])]), WordAt(s, 4), WordAt(s, 5))
  }

  lemma EntryOfBytes(e: Entry)
    requires e.name == "" || IsName(e.name)
    ensures EntryOf(EntryBytes(e)) == e
  {
    hide StrLen, NameBytes, Chars, Bytes, WordAt;
    var s := EntryBytes(e);
    NameOfBytes(e.name);
    assert s[..16] == NameBytes(e.name);
    assert s[..StrLen(s[..16])] == s[..16][..StrLen(s[..16])];
    WordsBehind(NameBytes(e.name), e.ino, e.kind);
  }

  lemma WordsBehind(head: seq<byte>, v: u32, w: u32)
    requires |head| == 16
    ensures WordAt(head + Bytes([v, w]), 4) == v && WordAt(head + Bytes([v, w]), 5) == w
  {
    var ws := [v, w];
    var tail := Bytes(ws);
    WordsOfBytes(ws);
    assert Words(tail, 2)[0] == WordAt(tail, 0) && Words(tail, 2)[1] == WordAt(tail, 1);
    hide Bytes, Words;
    var s := head + tail;
    assert s[16] == tail[0] && s[17] == tail[1] && s[18] == tail[2] && s[19] == tail[3];
    assert s[20] == tail[4] && s[21] == tail[5] && s[22] == tail[6] && s[23] == tail[7];
  }

  lemma EntryOfZeros()
    ensures EntryOf(Zeros(ENTRY_SIZE)) == NO_ENTRY
  {
    assert Zeros(ENTRY_SIZE)[..StrLen(Zeros(ENTRY_SIZE)[..16])] == [];
  }

  // ---------------------------------------------------------------- a sector of entries

  function EntryAt(s: Sector, j: nat): Entry
    requires j < PER_SECTOR
  {
    EntryOf(s[ENTRY_SIZE * j..ENTRY_SIZE * j + ENTRY_SIZE])
  }

  /** memcpy of an entry's bytes to its place changes that entry only. */
  lemma EntryPatched(s: Sector, j: nat, bytes: seq<byte>, m: nat)
    requires j < PER_SECTOR && |bytes| == ENTRY_SIZE && m < PER_SECTOR
    ensures EntryAt(Patch(s, ENTRY_SIZE * j, bytes), m) == if m == j then EntryOf(bytes) else EntryAt(s, m)
  {
    hide EntryOf;
    var t: Sector := Patch(s, ENTRY_SIZE * j, bytes);
    if m == j {
      assert t[ENTRY_SIZE * j..ENTRY_SIZE * j + ENTRY_SIZE] == bytes;
    } else {
      assert m < j ==> ENTRY_SIZE * m + ENTRY_SIZE <= ENTRY_SIZE * j;
      assert m > j ==> ENTRY_SIZE * j + ENTRY_SIZE <= ENTRY_SIZE * m;
      assert t[ENTRY_SIZE * m..ENTRY_SIZE * m + ENTRY_SIZE] == s[ENTRY_SIZE * m..ENTRY_SIZE * m + ENTRY_SIZE];
    }
  }

  lemma EmptySector(j: nat)
    requires j < PER_SECTOR
    ensures EntryAt(Zeros(SECTOR_SIZE), j) == NO_ENTRY
  {
    EntryOfZeros();
    hide EntryOf;
    assert Zeros(SECTOR_SIZE)[ENTRY_SIZE * j..ENTRY_SIZE * j + ENTRY_SIZE] == Zeros(ENTRY_SIZE);
  }

  // ---------------------------------------------------------------- a directory as a list of places

  predicate IsLive(e: Entry) {
    e.kind != FT_UNKNOWN
  }

  /** How many entries there are. */
  function Count(es: seq<Entry>): (n: nat)
    ensures n <= |es|
  {
    if es == [] then 0 else Count(es[..|es| - 1]) + if IsLive(es[|es| - 1]) then 1 else 0
  }

  lemma {:induction false} CountUpdate(es: seq<Entry>, s: nat, e: Entry)
    requires s < |es|
    ensures Count(es[s := e]) == Count(es) - (if IsLive(es[s]) then 1 else 0) + (if IsLive(e) then 1 else 0)
    decreases |es|
  {
    var n := |es| - 1;
    var fs := es[s := e];
    if s == n {
      assert fs[..n] == es[..n];
    } else {
      assert fs[..n] == es[..n][s := e];
      CountUpdate(es[..n], s, e);
    }
  }

  lemma {:induction false} CountPrefix(es: seq<Entry>, s: nat)
    requires s < |es|
    ensures Count(es[..s + 1]) == Count(es[..s]) + (if IsLive(es[s]) then 1 else 0)
  {
    assert es[..s + 1][..s] == es[..s];
  }

  lemma {:induction false} CountGrows(es: seq<Entry>, s: nat, t: nat)
    requires s <= t <= |es|
    ensures Count(es[..s]) <= Count(es[..t])
    decreases t
  {
    if s < t {
      CountPrefix(es, t - 1);
      CountGrows(es, s, t - 1);
    }
  }

  /** No entry at all from some place on. */
  lemma {:induction false} CountNone(es: seq<Entry>)
    ensures Count(es) == 0 <==> forall s | 0 <= s < |es| :: !IsLive(es[s])
    decreases |es|
  {
    if es != [] {
      var n := |es| - 1;
      CountNone(es[..n]);
      assert forall s | 0 <= s < n :: es[..n][s] == es[s];
      if Count(es) == 0 {
        forall s | 0 <= s < |es| ensures !IsLive(es[s]) {
          if s < n { assert es[..n][s] == es[s]; }
        }
      }
    }
  }
}
