/**
 * The 32-byte FAT directory entry (dir_t) as SdFile reads and writes it in the
 * cached directory block: field layout, little-endian encoding, the attribute
 * tests, and the split of the first cluster number into two 16-bit halves.
 * Layout as in the directory-structure section of the Microsoft FAT32 File
 * System Specification, version 1.03.
 */
module DirEntry {
  import opened Bytes

  const ENTRY_SIZE: nat := 32
  const ENTRIES_PER_BLOCK: nat := 16
  const NAME_SIZE: nat := 11

  /** First name byte of a slot that has never been used; no entries follow it. */
  const NAME_FREE: byte := 0x00
  /** First name byte of a deleted entry. */
  const NAME_DELETED: byte := 0xE5
  /** First name byte of the "." and ".." entries of a subdirectory. */
  const NAME_DOT: byte := 0x2E

  const ATTR_READ_ONLY: bv8 := 0x01
  const ATTR_VOLUME_ID: bv8 := 0x08
  const ATTR_DIRECTORY: bv8 := 0x10
  /** Attribute bits that decide between file, subdirectory and volume label. */
  const ATTR_FILE_TYPE_MASK: bv8 := 0x18

  /** Creation stamp written when no date/time source is installed: 2000-01-01, 01:00:00. */
  const DEFAULT_DATE: uint16 := 0x2821
  const DEFAULT_TIME: uint16 := 0x0800

  datatype Entry = Entry(
    name: seq<byte>,
    attributes: byte,
    reservedNT: byte,
    creationTimeTenths: byte,
    creationTime: uint16,
    creationDate: uint16,
    lastAccessDate: uint16,
    firstClusterHigh: uint16,
    lastWriteTime: uint16,
    lastWriteDate: uint16,
    firstClusterLow: uint16,
    fileSize: uint32)

  predicate WellFormed(e: Entry) {
    |e.name| == NAME_SIZE
  }

  /** A date and a time in FAT format, as a date/time callback delivers them. */
  datatype Stamp = Stamp(date: uint16, time: uint16)

  // ---------------------------------------------------------------- encoding

  function Le16(x: uint16): (r: seq<byte>)
    ensures |r| == 2
  {
    assert x / 0x100 < 0x100;
    [x % 0x100, x / 0x100]
  }

  function Le32(x: uint32): (r: seq<byte>)
    ensures |r| == 4
  {
    Le16(x % 0x1_0000) + Le16(x / 0x1_0000)
  }

  function Get16(b: seq<byte>, at: nat): uint16
    requires at + 2 <= |b|
  {
    b[at] as int + 0x100 * (b[at + 1] as int)
  }

  function Get32(b: seq<byte>, at: nat): uint32
    requires at + 4 <= |b|
  {
    Get16(b, at) as int + 0x1_0000 * (Get16(b, at + 2) as int)
  }

  /** The 32 bytes of an entry, fields in on-disk order, integers little-endian. */
  function Encode(e: Entry): (r: seq<byte>)
    requires WellFormed(e)
    ensures |r| == ENTRY_SIZE
  {
    e.name + [e.attributes, e.reservedNT, e.creationTimeTenths]
    + Le16(e.creationTime) + Le16(e.creationDate) + Le16(e.lastAccessDate)
    + Le16(e.firstClusterHigh) + Le16(e.lastWriteTime) + Le16(e.lastWriteDate)
    + Le16(e.firstClusterLow) + Le32(e.fileSize)
  }

  function Decode(b: seq<byte>): (e: Entry)
    requires |b| == ENTRY_SIZE
    ensures WellFormed(e)
  {
    Entry(b[..11], b[11], b[12], b[13],
      Get16(b, 14), Get16(b, 16), Get16(b, 18), Get16(b, 20),
      Get16(b, 22), Get16(b, 24), Get16(b, 26), Get32(b, 28))
  }

  lemma Le16Get(b: seq<byte>, at: nat, x: uint16)
    requires at + 2 <= |b| && b[at..at + 2] == Le16(x)
    ensures Get16(b, at) == x
  {
    assert b[at] == b[at..at + 2][0] && b[at + 1] == b[at..at + 2][1];
  }

  lemma Le32Get(b: seq<byte>, at: nat, x: uint32)
    requires at + 4 <= |b| && b[at..at + 4] == Le32(x)
    ensures Get32(b, at) == x
  {
    assert b[at..at + 2] == b[at..at + 4][..2];
    assert b[at + 2..at + 4] == b[at..at + 4][2..];
    Le16Get(b, at, x % 0x1_0000);
    Le16Get(b, at + 2, x / 0x1_0000);
  }

  /** Decoding what was encoded gives back every field. */
  lemma DecodeEncode(e: Entry)
    requires WellFormed(e)
    ensures Decode(Encode(e)) == e
  {
    var b := Encode(e);
    assert b[..11] == e.name;
    assert b[14..16] == Le16(e.creationTime);
    assert b[16..18] == Le16(e.creationDate);
    assert b[18..20] == Le16(e.lastAccessDate);
    assert b[20..22] == Le16(e.firstClusterHigh);
    assert b[22..24] == Le16(e.lastWriteTime);
    assert b[24..26] == Le16(e.lastWriteDate);
    assert b[26..28] == Le16(e.firstClusterLow);
    assert b[28..32] == Le32(e.fileSize);
    Le16Get(b, 14, e.creationTime);
    Le16Get(b, 16, e.creationDate);
    Le16Get(b, 18, e.lastAccessDate);
    Le16Get(b, 20, e.firstClusterHigh);
    Le16Get(b, 22, e.lastWriteTime);
    Le16Get(b, 24, e.lastWriteDate);
    Le16Get(b, 26, e.firstClusterLow);
    Le32Get(b, 28, e.fileSize);
  }

  lemma GetLe16(b: seq<byte>, at: nat)
    requires at + 2 <= |b|
    ensures Le16(Get16(b, at)) == b[at..at + 2]
  {
  }

  lemma GetLe32(b: seq<byte>, at: nat)
    requires at + 4 <= |b|
    ensures Le32(Get32(b, at)) == b[at..at + 4]
  {
    var lo, hi := Get16(b, at), Get16(b, at + 2);
    assert Get32(b, at) % 0x1_0000 == lo && Get32(b, at) / 0x1_0000 == hi;
  }

  /** Encoding a decoded entry reproduces the 32 bytes exactly. */
  lemma EncodeDecode(b: seq<byte>)
    requires |b| == ENTRY_SIZE
    ensures Encode(Decode(b)) == b
  {
    GetLe16(b, 14); GetLe16(b, 16); GetLe16(b, 18); GetLe16(b, 20);
    GetLe16(b, 22); GetLe16(b, 24); GetLe16(b, 26); GetLe32(b, 28);
    assert b == b[..11] + [b[11], b[12], b[13]] + b[14..16] + b[16..18] + b[18..20]
      + b[20..22] + b[22..24] + b[24..26] + b[26..28] + b[28..32];
  }

  // ---------------------------------------------------------- entries in a block

  /** The entry in slot i of a 512-byte directory block. */
  function EntryAt(block: seq<byte>, i: nat): (e: Entry)
    requires i < ENTRIES_PER_BLOCK && |block| == 512
    ensures WellFormed(e)
  {
    Decode(block[ENTRY_SIZE * i..ENTRY_SIZE * i + ENTRY_SIZE])
  }

  /** The block with slot i overwritten by e. */
  function WithEntry(block: seq<byte>, i: nat, e: Entry): (r: seq<byte>)
    requires i < ENTRIES_PER_BLOCK && |block| == 512 && WellFormed(e)
    ensures |r| == 512
  {
    block[..ENTRY_SIZE * i] + Encode(e) + block[ENTRY_SIZE * i + ENTRY_SIZE..]
  }

  /** Writing slot i stores e there and leaves every other slot as it was. */
  lemma WithEntryAt(block: seq<byte>, i: nat, e: Entry, j: nat)
    requires i < ENTRIES_PER_BLOCK && j < ENTRIES_PER_BLOCK && |block| == 512 && WellFormed(e)
    ensures EntryAt(WithEntry(block, i, e), j) == if i == j then e else EntryAt(block, j)
  {
    var r := WithEntry(block, i, e);
    if i == j {
      assert r[32 * i..32 * i + 32] == Encode(e);
      DecodeEncode(e);
    } else {
      forall k | 32 * j <= k < 32 * j + 32
        ensures r[k] == block[k]
      {
        WithEntryOutside(block, i, e, k);
      }
      assert r[32 * j..32 * j + 32] == block[32 * j..32 * j + 32];
    }
  }

  /** Bytes outside slot i are untouched by writing slot i. */
  lemma WithEntryOutside(block: seq<byte>, i: nat, e: Entry, k: nat)
    requires i < ENTRIES_PER_BLOCK && |block| == 512 && WellFormed(e)
    requires k < 512 && !(ENTRY_SIZE * i <= k < ENTRY_SIZE * i + ENTRY_SIZE)
    ensures WithEntry(block, i, e)[k] == block[k]
  {
  }

  /** Re-writing the entry that is already in slot i leaves the block unchanged. */
  lemma WithOwnEntry(block: seq<byte>, i: nat)
    requires i < ENTRIES_PER_BLOCK && |block| == 512
    ensures WithEntry(block, i, EntryAt(block, i)) == block
  {
    EncodeDecode(block[32 * i..32 * i + 32]);
  }

  // ---------------------------------------------------------------- attributes

  function Attr(e: Entry): bv8 {
    e.attributes as bv8
  }

  /** DIR_IS_FILE: neither a directory nor a volume label. */
  predicate IsFile(e: Entry) {
    Attr(e) & ATTR_FILE_TYPE_MASK == 0
  }

  /** DIR_IS_SUBDIR: a directory and not a volume label. */
  predicate IsSubdir(e: Entry) {
    Attr(e) & ATTR_FILE_TYPE_MASK == ATTR_DIRECTORY
  }

  /** DIR_IS_FILE_OR_SUBDIR: not a volume label (nor a long-name part). */
  predicate IsFileOrSubdir(e: Entry) {
    Attr(e) & ATTR_VOLUME_ID == 0
  }

  /** An entry that refuses O_WRITE and O_TRUNC: read-only or a directory. */
  predicate RefusesWrite(e: Entry) {
    Attr(e) & (ATTR_READ_ONLY | ATTR_DIRECTORY) != 0
  }

  /** The three attribute tests agree: file-or-subdirectory is exactly file or subdirectory. */
  lemma FileOrSubdirCases(e: Entry)
    ensures IsFileOrSubdir(e) <==> IsFile(e) || IsSubdir(e)
    ensures !(IsFile(e) && IsSubdir(e))
  {
  }

  /** A subdirectory always refuses writing, whatever its read-only bit says. */
  lemma SubdirRefusesWrite(e: Entry)
    requires IsSubdir(e)
    ensures RefusesWrite(e)
  {
  }

  // ------------------------------------------------------------ first cluster

  /**
   * The first cluster as openCachedEntry assembles it, (high << 16) | low;
   * the halves are 16-bit, so the or is an addition (see ShiftOrIsSum).
   */
  function FirstCluster(e: Entry): (c: uint32)
  {
    e.firstClusterHigh * 0x1_0000 + e.firstClusterLow
  }

  /**
   * The entry with its cluster halves set as sync writes them,
   * low = c & 0xFFFF and high = c >> 16 (see MaskShiftAreDivMod).
   */
  function WithFirstCluster(e: Entry, c: uint32): (r: Entry)
  {
    e.(firstClusterLow := c % 0x1_0000, firstClusterHigh := c / 0x1_0000)
  }

  /** For 16-bit halves, shifting the high half up and or-ing in the low half is a sum. */
  lemma ShiftOrIsSum(h: bv32, l: bv32)
    requires h < 0x1_0000 && l < 0x1_0000
    ensures (h << 16) | l == h * 0x1_0000 + l
  {
  }

  /** Masking with 0xFFFF and shifting right by 16 are remainder and quotient by 65536. */
  lemma MaskShiftAreDivMod(x: bv32)
    ensures x & 0xFFFF == x % 0x1_0000 && x >> 16 == x / 0x1_0000
  {
  }

  /** Splitting a cluster number and joining the halves gives the number back. */
  lemma JoinSplit(e: Entry, c: uint32)
    ensures FirstCluster(WithFirstCluster(e, c)) == c
  {
  }

  /** Joining the halves and splitting again gives the same halves. */
  lemma SplitJoin(e: Entry)
    ensures WithFirstCluster(e, FirstCluster(e)) == e
  {
  }

  /** Setting the cluster halves changes no other field. */
  lemma WithFirstClusterKeeps(e: Entry, c: uint32)
    ensures var r := WithFirstCluster(e, c);
      r.name == e.name && r.attributes == e.attributes && r.fileSize == e.fileSize
      && r.(firstClusterLow := e.firstClusterLow, firstClusterHigh := e.firstClusterHigh) == e
  {
  }
}
