/**
 * The data logger's SD-card front end (DLSD.cpp): per-file counters, the
 * composition of the numbered log file names, and the line reader that stops
 * at a terminator character.
 */
module DLSD {
  import opened Bytes
  import DLCommon
  import ShortName

  /** Entries of sd_filename_table (and of the counter arrays). */
  const NUM_FILES: nat := 5

  /** Size of the name buffer: eight name characters, ".DAT" and the terminator. */
  const NAME_BUFFER_SIZE: nat := 13

  // "CONFIG", "DAT00000", "SYS00000", "SER00000"
  const CONFIG_BASE: seq<byte> := [0x43, 0x4F, 0x4E, 0x46, 0x49, 0x47]
  const DAT_BASE: seq<byte> := [0x44, 0x41, 0x54, 0x30, 0x30, 0x30, 0x30, 0x30]
  const SYS_BASE: seq<byte> := [0x53, 0x59, 0x53, 0x30, 0x30, 0x30, 0x30, 0x30]
  const SER_BASE: seq<byte> := [0x53, 0x45, 0x52, 0x30, 0x30, 0x30, 0x30, 0x30]

  /** sd_filename_table; entry 4 names the previous log file and so repeats entry 1. */
  const FILE_BASES: seq<seq<byte>> := [CONFIG_BASE, DAT_BASE, SYS_BASE, SER_BASE, DAT_BASE]

  /** sd_filename_ext: ".DAT". */
  const EXTENSION: seq<byte> := [0x2E, 0x44, 0x41, 0x54]

  // ----------------------------------------------------------------------------
  // File names

  /**
   * What pad_filename does to a name of at least eight characters: the last
   * characters of the first eight are replaced by the decimal digits of c.
   */
  function Padded(base: seq<byte>, c: uint16): (r: seq<byte>)
    requires 8 <= |base|
    ensures |r| == |base|
  {
    CountDigits(c);
    base[..8 - |DLCommon.Digits(c)|] + DLCommon.Digits(c) + base[8..]
  }

  /** The name of file n before its extension: the table entry, numbered for every file but CONFIG. */
  function NameBase(n: nat, count: uint16): (r: seq<byte>)
    requires n < NUM_FILES
  {
    if n == 0 then FILE_BASES[0] else Padded(FILE_BASES[n], count)
  }

  /** The file name open uses for file n when its counter is count. */
  function LogFileName(n: nat, count: uint16): (r: seq<byte>)
    requires n < NUM_FILES
    ensures |r| == if n == 0 then 10 else 12
  {
    NameBase(n, count) + EXTENSION
  }

  /** A 16-bit counter has at most five digits. */
  lemma CountDigits(c: uint16)
    ensures 1 <= |DLCommon.Digits(c)| <= 5
  {
    DLCommon.DigitsBound(c, 5);
  }

  /** A numbered base is its three letters followed by the counter zero-padded to five digits. */
  lemma PaddedIsZeroFilled(base: seq<byte>, c: uint16)
    requires base in {DAT_BASE, SYS_BASE, SER_BASE}
    ensures Padded(base, c) == base[..3] + DLCommon.Formatted(c, 5)
  {
    CountDigits(c);
    var d := DLCommon.Digits(c);
    var z := DLCommon.Zeros(5 - |d|);
    assert base[..8 - |d|] == base[..3] + z;
    assert base[8..] == [];
  }

  /** The shape of every name: CONFIG.DAT, or a three-letter prefix, five digits and .DAT. */
  lemma LogFileNameShape(n: nat, count: uint16)
    requires n < NUM_FILES
    ensures n == 0 ==> LogFileName(n, count) == CONFIG_BASE + EXTENSION
    ensures n != 0 ==> LogFileName(n, count) == FILE_BASES[n][..3] + DLCommon.Formatted(count, 5) + EXTENSION
  {
    if n != 0 {
      PaddedIsZeroFilled(FILE_BASES[n], count);
    }
  }

  /** Characters 3 to 7 of a numbered name are its counter, zero-padded to five digits. */
  lemma NameDigits(n: nat, count: uint16)
    requires 0 < n < NUM_FILES
    ensures LogFileName(n, count)[3..8] == DLCommon.Formatted(count, 5)
  {
    LogFileNameShape(n, count);
    CountDigits(count);
  }

  /** Different counter values of one file give different names: no log file is reused. */
  lemma LogFileNamesDistinct(n: nat, c1: uint16, c2: uint16)
    requires 0 < n < NUM_FILES && c1 != c2
    ensures LogFileName(n, c1) != LogFileName(n, c2)
  {
    NameDigits(n, c1);
    NameDigits(n, c2);
    DLCommon.FormattedValue(c1, 5);
    DLCommon.FormattedValue(c2, 5);
  }

  /** Upper-case ASCII letters and decimal digits only. */
  predicate UpperAlnum(s: seq<byte>)
  {
    forall i :: 0 <= i < |s| ==> 0x30 <= s[i] <= 0x39 || 0x41 <= s[i] <= 0x5A
  }

  lemma NameBaseIsUpperAlnum(n: nat, c: uint16)
    requires n < NUM_FILES
    ensures UpperAlnum(NameBase(n, c)) && 1 <= |NameBase(n, c)| <= 8
  {
    TableEntry(n);
    assert UpperAlnum(FILE_BASES[n]) by {
      if n == 0 {
      } else if n == 1 || n == 4 {
        assert FILE_BASES[n] == DAT_BASE;
      } else if n == 2 {
      } else {
      }
    }
    if n != 0 {
      CountDigits(c);
      var base := FILE_BASES[n];
      var d := DLCommon.Digits(c);
      assert UpperAlnum(d);
      assert Padded(base, c) == base[..8 - |d|] + d + base[8..];
    }
  }

  /** A base of upper-case letters and digits, followed by ".DAT", splits at that dot. */
  lemma SplitsAtExtension(nb: seq<byte>)
    requires UpperAlnum(nb)
    ensures ShortName.DotAt(nb + EXTENSION) == Some(|nb|)
    ensures ShortName.Base(nb + EXTENSION) == nb
    ensures ShortName.Ext(nb + EXTENSION) == EXTENSION[1..]
  {
    assert ShortName.DOT !in nb;
    assert ShortName.DotAt(EXTENSION) == Some(0);
    ShortName.DotAtConcat(nb, EXTENSION);
  }

  lemma LegalUpperWithExtension(nb: seq<byte>)
    requires UpperAlnum(nb)
    ensures ShortName.AllLegal(nb + EXTENSION) && ShortName.NoLower(nb + EXTENSION)
  {
    assert ShortName.AllLegal(nb);
    assert ShortName.AllLegal(EXTENSION);
    ShortName.AllLegalConcat(nb, EXTENSION);
  }

  lemma ShortNameWithExtension(nb: seq<byte>)
    requires UpperAlnum(nb) && 1 <= |nb| <= 8
    ensures ShortName.Valid83(nb + EXTENSION)
    ensures ShortName.DirNameText(ShortName.Format83(nb + EXTENSION)) == nb + EXTENSION
  {
    SplitsAtExtension(nb);
    LegalUpperWithExtension(nb);
    ShortName.DirNameOfFormat(nb + EXTENSION);
  }

  /**
   * Every log file name is a valid 8.3 name whose base is the numbered entry
   * and whose extension is DAT, and dirName prints the 11-byte field that
   * make83Name builds from it back as the same name.
   */
  lemma LogFileNameIsShortName(n: nat, count: uint16)
    requires n < NUM_FILES
    ensures var q := LogFileName(n, count);
      && ShortName.Valid83(q)
      && ShortName.Base(q) == NameBase(n, count)
      && ShortName.Ext(q) == EXTENSION[1..]
      && ShortName.DirNameText(ShortName.Format83(q)) == q
  {
    NameBaseIsUpperAlnum(n, count);
    SplitsAtExtension(NameBase(n, count));
    ShortNameWithExtension(NameBase(n, count));
  }

  /** Formatting without padding gives exactly the digits. */
  lemma FormattedUnpadded(c: nat)
    ensures DLCommon.Formatted(c, 0) == DLCommon.Digits(c)
  {
    assert DLCommon.Zeros(0) == [];
  }

  /**
   * pad_filename: formats c into a six-byte buffer (the call passes 10 as its
   * length, which is safe only because a 16-bit value has at most five digits)
   * and copies the digits over the end of the eight-character name.
   */
  method PadFilename(filename: array<byte>, c: uint16)
    requires 8 <= filename.Length
    modifies filename
    ensures filename[..] == Padded(old(filename[..]), c)
  {
    var nums := new byte[6];
    var len := FormatCount(c, nums);
    var a := StrLenOf(nums);
    ghost var d := DLCommon.Digits(c);
    ghost var before := filename[..];
    for i := 0 to a
      invariant nums[..a] == d
      invariant forall j :: 0 <= j < filename.Length ==>
        filename[j] == if 8 - a <= j < 8 - a + i then d[j - (8 - a)] else before[j]
    {
      filename[8 - (a - i)] := nums[i];
    }
    PaddedAt(before, c, filename[..]);
  }

  /** The fmtUnsigned call of pad_filename: the digits of c and a NUL, whose position strlen finds. */
  method FormatCount(c: uint16, nums: array<byte>) returns (len: nat)
    requires nums.Length == 6
    modifies nums
    ensures len == |DLCommon.Digits(c)| <= 5
    ensures nums[..len] == DLCommon.Digits(c) && 0 in nums[..] && StrLen(nums[..]) == len
  {
    CountDigits(c);
    FormattedUnpadded(c);
    len := DLCommon.FmtUnsigned(c, nums, 10, 0);
    ghost var d := DLCommon.Digits(c);
    assert len == |d|;
    assert nums[..len + 1] == d + [0];
    DigitsHaveNoNul(c);
    StrLenAfter(nums[..], d);
  }

  lemma DigitsHaveNoNul(c: nat)
    ensures 0 !in DLCommon.Digits(c)
  {
    var d := DLCommon.Digits(c);
    forall i | 0 <= i < |d|
      ensures d[i] != 0
    {
      assert DLCommon.IsDigit(d[i]);
    }
  }

  /** A name agrees with Padded when it has the digits at the end of the first eight characters and nothing else changed. */
  lemma PaddedAt(base: seq<byte>, c: uint16, r: seq<byte>)
    requires 8 <= |base| == |r|
    requires |DLCommon.Digits(c)| <= 8
    requires forall j :: 0 <= j < |r| ==>
      r[j] == if 8 - |DLCommon.Digits(c)| <= j < 8 then DLCommon.Digits(c)[j - (8 - |DLCommon.Digits(c)|)] else base[j]
    ensures r == Padded(base, c)
  {
  }

  /** strlen over an array holding a NUL-terminated string. */
  method StrLenOf(s: array<byte>) returns (k: nat)
    requires 0 in s[..]
    ensures k == StrLen(s[..])
  {
    k := 0;
    while s[k] != 0
      invariant k <= StrLen(s[..])
      decreases StrLen(s[..]) - k
    {
      k := k + 1;
    }
  }

  /** Copies the string s and its terminator into dst at position at (strcpy, and strcat at the end of a string). */
  method CopyString(dst: array<byte>, at: nat, s: seq<byte>)
    requires at + |s| < dst.Length
    modifies dst
    ensures dst[..] == old(dst[..at]) + s + [0] + old(dst[at + |s| + 1..])
  {
    ghost var before := dst[..];
    for i := 0 to |s|
      invariant dst[..] == before[..at] + s[..i] + before[at + i..]
    {
      dst[at + i] := s[i];
      assert s[..i + 1] == s[..i] + [s[i]];
    }
    dst[at + |s|] := 0;
    assert s[..|s|] == s;
  }

  // ----------------------------------------------------------------------------
  // The logger object

  /** DLSD: the counters of the numbered files and the buffer the names are built in. */
  class Logger {
    /** _files_count: the number of the file open writes next, per file. */
    const filesCount: array<uint16>
    /** _saved_count: a second, caller-maintained counter per file. */
    const savedCount: array<uint16>
    /** _filename: where open composes the name of the file it opens. */
    const filename: array<byte>
    var cs: byte
    var fullspeed: byte
    var inited: int

    ghost predicate Valid()
      reads this
    {
      && filesCount.Length == NUM_FILES
      && savedCount.Length == NUM_FILES
      && filename.Length == NAME_BUFFER_SIZE
      && filesCount != savedCount
    }

    /** The constructor: not yet initialised, every file counter at 0. */
    constructor(fullspeed: byte, cs: byte)
      ensures Valid() && fresh(filesCount) && fresh(savedCount) && fresh(filename)
      ensures this.cs == cs && this.fullspeed == fullspeed && inited == 0
      ensures forall i :: 0 <= i < NUM_FILES ==> filesCount[i] == 0
    {
      this.cs := cs;
      this.fullspeed := fullspeed;
      inited := 0;
      filesCount := new uint16[NUM_FILES];
      savedCount := new uint16[NUM_FILES];
      filename := new byte[NAME_BUFFER_SIZE];
      new;
      ResetFilesCount();
    }

    /** get_files_count: the stored counter of file fid. */
    method GetFilesCount(fid: byte) returns (count: uint16)
      requires Valid() && fid < NUM_FILES
      ensures count == filesCount[fid]
    {
      count := filesCount[fid];
    }

    /** set_files_count: stores count for file fid only, and reports 1. */
    method SetFilesCount(fid: byte, count: uint16) returns (r: byte)
      requires Valid() && fid < NUM_FILES
      modifies filesCount
      ensures r == 1
      ensures filesCount[..] == old(filesCount[..])[fid := count]
    {
      filesCount[fid] := count;
      r := 1;
    }

    /** reset_files_count: every file counter back to 0. */
    method ResetFilesCount()
      requires Valid()
      modifies filesCount
      ensures forall i :: 0 <= i < NUM_FILES ==> filesCount[i] == 0
    {
      for i := 0 to NUM_FILES
        invariant forall j :: 0 <= j < i ==> filesCount[j] == 0
      {
        filesCount[i] := 0;
      }
    }

    /** get_saved_count: the stored saved-record counter of file fid. */
    method GetSavedCount(fid: byte) returns (count: uint16)
      requires Valid() && fid < NUM_FILES
      ensures count == savedCount[fid]
    {
      count := savedCount[fid];
    }

    /** set_saved_count: stores count for file fid only, and reports 1. */
    method SetSavedCount(fid: byte, count: uint16) returns (r: byte)
      requires Valid() && fid < NUM_FILES
      modifies savedCount
      ensures r == 1
      ensures savedCount[..] == old(savedCount[..])[fid := count]
    {
      savedCount[fid] := count;
      r := 1;
    }

    /** reset_saved_count: every saved-record counter back to 0. */
    method ResetSavedCount()
      requires Valid()
      modifies savedCount
      ensures forall i :: 0 <= i < NUM_FILES ==> savedCount[i] == 0
    {
      for i := 0 to NUM_FILES
        invariant forall j :: 0 <= j < i ==> savedCount[j] == 0
      {
        savedCount[i] := 0;
      }
    }

    /**
     * increment_file: moves file n on to its next number, wrapping at 2^16, so
     * that the next open creates a new file.
     */
    method IncrementFile(n: byte) returns (ok: bool)
      requires Valid() && n < NUM_FILES
      modifies filesCount
      ensures ok
      ensures filesCount[..] == old(filesCount[..])[n := (old(filesCount[n]) + 1) % UINT16_LIMIT]
    {
      filesCount[n] := (filesCount[n] + 1) % UINT16_LIMIT;
      ok := true;
    }

    /**
     * The naming part of open: the table entry, the counter digits for every
     * file but CONFIG, and the extension, NUL-terminated in the name buffer.
     */
    method ComposeName(n: byte)
      requires Valid() && n < NUM_FILES
      modifies filename
      ensures filename[..|LogFileName(n, filesCount[n])| + 1] == LogFileName(n, filesCount[n]) + [0]
    {
      ComposeInto(filename, n, filesCount[n]);
    }
  }

  /** The body of the naming part of open, on the name buffer. */
  method ComposeInto(filename: array<byte>, n: nat, count: uint16)
    requires filename.Length == NAME_BUFFER_SIZE && n < NUM_FILES
    modifies filename
    ensures filename[..|LogFileName(n, count)| + 1] == LogFileName(n, count) + [0]
  {
    TableEntry(n);
    ghost var nb := NameBase(n, count);
    filename[0] := 0;
    CopyString(filename, 0, FILE_BASES[n]);
    if n != 0 {
      ghost var copied := filename[..];
      PadFilename(filename, count);
      PaddedKeepsTerminator(copied, FILE_BASES[n], count);
    }
    assert filename[..|nb| + 1] == nb + [0];
    NameBaseHasNoNul(n, count);
    StrLenAfter(filename[..], nb);
    var end := StrLenOf(filename);
    ghost var prev := filename[..];
    CopyString(filename, end, EXTENSION);
    ExtensionAppended(prev, nb, filename[..]);
  }

  lemma ExtensionAppended(prev: seq<byte>, nb: seq<byte>, s: seq<byte>)
    requires |nb| + |EXTENSION| < |prev| == |s| && prev[..|nb| + 1] == nb + [0]
    requires s == prev[..|nb|] + EXTENSION + [0] + prev[|nb| + |EXTENSION| + 1..]
    ensures s[..|nb + EXTENSION| + 1] == nb + EXTENSION + [0]
  {
    assert prev[..|nb|] == nb;
  }

  /** Padding the copied table entry leaves its terminator in place. */
  lemma PaddedKeepsTerminator(s: seq<byte>, base: seq<byte>, c: uint16)
    requires |base| == 8 && 9 <= |s| && s[..9] == base + [0]
    ensures Padded(s, c)[..9] == Padded(base, c) + [0]
  {
    CountDigits(c);
  }

  /** The table entries: CONFIG has six characters, the numbered bases eight; none holds a NUL. */
  lemma TableEntry(n: nat)
    requires n < NUM_FILES
    ensures |FILE_BASES[n]| == if n == 0 then 6 else 8
    ensures 0 !in FILE_BASES[n]
  {
    if n == 0 {
    } else if n == 1 || n == 4 {
      assert FILE_BASES[n] == DAT_BASE;
    } else if n == 2 {
    } else {
    }
  }

  /** No name base contains a NUL, so strlen finds the end of it. */
  lemma NameBaseHasNoNul(n: nat, c: uint16)
    requires n < NUM_FILES
    ensures 0 !in NameBase(n, c)
  {
    TableEntry(n);
    if n != 0 {
      CountDigits(c);
      DigitsHaveNoNul(c);
      var base := FILE_BASES[n];
      var d := DLCommon.Digits(c);
      assert Padded(base, c) == base[..8 - |d|] + d + base[8..];
    }
  }

  lemma StrLenAfter(s: seq<byte>, p: seq<byte>)
    requires 0 !in p && |p| < |s| && s[..|p| + 1] == p + [0]
    ensures 0 in s && StrLen(s) == |p|
  {
    assert s[|p|] == 0;
    forall i | 0 <= i < |p|
      ensures s[i] != 0
    {
      assert s[i] == p[i];
    }
  }

  // ----------------------------------------------------------------------------
  // Reading up to a terminator (read(n, ptr, len, t))

  /** char on the AVR target: a signed 8-bit value. */
  type char8 = x: int | -128 <= x < 128

  /** Storing an int into a char keeps its low eight bits as a two's-complement value. */
  function ToChar(v: int): (r: char8)
    ensures -128 <= v < 128 ==> r == v
  {
    var b := v % 256;
    if b >= 128 then b - 256 else b
  }

  /** SdFile::read() on a file whose unread bytes are rest: byte k, or -1 at the end. */
  function NextByte(rest: seq<byte>, k: nat): int
  {
    if k < |rest| then rest[k] else -1
  }

  /** The bytes as char values, as the reader stores them. */
  function Chars(s: seq<byte>): (r: seq<char8>)
    ensures |r| == |s| && forall i :: 0 <= i < |s| ==> r[i] == ToChar(s[i])
  {
    seq(|s|, i requires 0 <= i < |s| => ToChar(s[i]))
  }

  /**
   * Whether the reader stops at read number k. As written, the value is first
   * stored into a char and then tested for < 0, so any byte of 0x80 or more
   * stops it as if the file had ended; intended is to stop at the end of the
   * file or at the terminator only.
   */
  predicate StopsAt(rest: seq<byte>, k: nat, t: char8, asWritten: bool)
  {
    if asWritten then ToChar(NextByte(rest, k)) < 0 || ToChar(NextByte(rest, k)) == t
    else k >= |rest| || ToChar(rest[k]) == t
  }

  /** The first read, from k up to limit, at which the reader stops; limit when none. */
  function FirstStop(rest: seq<byte>, t: char8, k: nat, limit: nat, asWritten: bool): (r: nat)
    requires k <= limit
    ensures k <= r <= limit
    ensures r < limit ==> StopsAt(rest, r, t, asWritten)
    ensures forall i :: k <= i < r ==> !StopsAt(rest, i, t, asWritten)
    decreases limit - k
  {
    if k == limit then k
    else if StopsAt(rest, k, t, asWritten) then k
    else FirstStop(rest, t, k + 1, limit, asWritten)
  }

  /** Both variants stop, at the latest, once the file is exhausted. */
  lemma StopWithinFile(rest: seq<byte>, t: char8, limit: nat, asWritten: bool)
    ensures FirstStop(rest, t, 0, limit, asWritten) <= |rest|
  {
    if |rest| < limit {
      assert StopsAt(rest, |rest|, t, asWritten);
    }
  }

  /** The reader's return value: 1 after len bytes, 0 at the terminator, -1 at (what it takes for) the end. */
  function ReadResult(rest: seq<byte>, len: int, t: char8, asWritten: bool): (r: int)
    ensures r in {-1, 0, 1}
  {
    var limit := Max(len, 0);
    var k := FirstStop(rest, t, 0, limit, asWritten);
    if k == limit then 1
    else if (if asWritten then ToChar(NextByte(rest, k)) < 0 else k >= |rest|) then -1
    else 0
  }

  /**
   * DLSD::read(n, ptr, len, t) as written: each value read() returns is stored
   * into the char buffer first and then compared. rest stands for the unread
   * bytes of file n.
   */
  method ReadUntilAsWritten(rest: seq<byte>, ptr: array<char8>, len: int, t: char8) returns (r: int)
    requires Max(len, 0) < ptr.Length
    modifies ptr
    ensures var k := FirstStop(rest, t, 0, Max(len, 0), true);
      && k <= |rest|
      && r == ReadResult(rest, len, t, true)
      && (forall j :: 0 <= j < k ==> ptr[j] == ToChar(rest[j]))
      && ptr[k] == 0
      && (forall j :: k < j < ptr.Length ==> ptr[j] == old(ptr[j]))
  {
    ghost var stop := FirstStop(rest, t, 0, Max(len, 0), true);
    StopWithinFile(rest, t, Max(len, 0), true);
    var c := 0;
    while c < len
      invariant 0 <= c <= stop
      invariant forall j :: 0 <= j < c ==> ptr[j] == ToChar(rest[j])
      invariant forall j :: c <= j < ptr.Length ==> ptr[j] == old(ptr[j])
    {
      ptr[c] := ToChar(NextByte(rest, c));
      if ptr[c] < 0 || ptr[c] == t {
        assert StopsAt(rest, c, t, true);
        if ptr[c] < 0 {
          ptr[c] := 0;
          return -1;
        } else {
          ptr[c] := 0;
          return 0;
        }
      }
      c := c + 1;
    }
    ptr[c] := 0;
    return 1;
  }

  /**
   * The reader as evidently intended: the value from read() is tested for the
   * end of the file before it is stored, so every byte value is data.
   */
  method ReadUntil(rest: seq<byte>, ptr: array<char8>, len: int, t: char8) returns (r: int)
    requires Max(len, 0) < ptr.Length
    modifies ptr
    ensures var k := FirstStop(rest, t, 0, Max(len, 0), false);
      && k <= |rest|
      && r == ReadResult(rest, len, t, false)
      && (forall j :: 0 <= j < k ==> ptr[j] == ToChar(rest[j]))
      && ptr[k] == 0
      && (forall j :: k < j < ptr.Length ==> ptr[j] == old(ptr[j]))
  {
    ghost var stop := FirstStop(rest, t, 0, Max(len, 0), false);
    StopWithinFile(rest, t, Max(len, 0), false);
    var c := 0;
    while c < len
      invariant 0 <= c <= stop
      invariant forall j :: 0 <= j < c ==> ptr[j] == ToChar(rest[j])
      invariant forall j :: c <= j < ptr.Length ==> ptr[j] == old(ptr[j])
    {
      var v := NextByte(rest, c);
      if v < 0 {
        assert StopsAt(rest, c, t, false);
        ptr[c] := 0;
        return -1;
      }
      ptr[c] := ToChar(v);
      if ptr[c] == t {
        assert StopsAt(rest, c, t, false);
        ptr[c] := 0;
        return 0;
      }
      c := c + 1;
    }
    ptr[c] := 0;
    return 1;
  }

  /** The intended reader reports the end of the file only when it has used up every byte. */
  lemma EndOnlyAtEndOfFile(rest: seq<byte>, len: int, t: char8)
    ensures ReadResult(rest, len, t, false) == -1 <==> |rest| < Max(len, 0) && forall i :: 0 <= i < |rest| ==> ToChar(rest[i]) != t
  {
    var limit := Max(len, 0);
    var k := FirstStop(rest, t, 0, limit, false);
    StopWithinFile(rest, t, limit, false);
    if ReadResult(rest, len, t, false) == -1 {
      forall i | 0 <= i < |rest|
        ensures ToChar(rest[i]) != t
      {
        assert !StopsAt(rest, i, t, false);
      }
    }
    assert k < limit && k < |rest| ==> StopsAt(rest, k, t, false);
  }

  /** ... and stops with 0 exactly at the first terminator, when one comes within len bytes. */
  lemma TerminatorFound(rest: seq<byte>, len: int, t: char8)
    ensures ReadResult(rest, len, t, false) == 0 <==>
      exists k :: 0 <= k < Max(len, 0) && k < |rest| && ToChar(rest[k]) == t
  {
    var limit := Max(len, 0);
    var k := FirstStop(rest, t, 0, limit, false);
    StopWithinFile(rest, t, limit, false);
    if exists j :: 0 <= j < limit && j < |rest| && ToChar(rest[j]) == t {
      var j: nat :| j < limit && j < |rest| && ToChar(rest[j]) == t;
      assert StopsAt(rest, j, t, false);
    }
  }

  /** On plain ASCII data the code as written and the intended reader agree. */
  lemma {:induction false} AgreeOnAscii(rest: seq<byte>, t: char8, k: nat, limit: nat)
    requires k <= limit
    requires forall i :: 0 <= i < |rest| ==> rest[i] < 0x80
    ensures FirstStop(rest, t, k, limit, true) == FirstStop(rest, t, k, limit, false)
    decreases limit - k
  {
    if k < limit {
      assert StopsAt(rest, k, t, true) == StopsAt(rest, k, t, false);
      AgreeOnAscii(rest, t, k + 1, limit);
    }
  }

  /**
   * The defect: a file holding the byte 0xB0 (a degree sign in Latin-1) and then
   * a newline. As written the reader stops at once and reports the end of the
   * file; the intended reader copies the byte and stops at the newline.
   */
  lemma HighByteLooksLikeEndOfFile()
    ensures ReadResult([0xB0, 0x0A], 4, 0x0A, true) == -1
    ensures FirstStop([0xB0, 0x0A], 0x0A, 0, 4, true) == 0
    ensures ReadResult([0xB0, 0x0A], 4, 0x0A, false) == 0
    ensures FirstStop([0xB0, 0x0A], 0x0A, 0, 4, false) == 1
  {
    assert ToChar(0xB0) == -80;
    assert StopsAt([0xB0, 0x0A], 0, 0x0A, true);
    assert !StopsAt([0xB0, 0x0A], 0, 0x0A, false);
    assert StopsAt([0xB0, 0x0A], 1, 0x0A, false);
  }
}
