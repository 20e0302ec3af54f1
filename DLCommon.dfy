/**
 * The data logger's shared helpers (DLCommon.cpp): the XOR checksum of a
 * string, the nibble-table CRC-32 used for strings and for records, and
 * fmtUnsigned, a bounded, zero-padded decimal formatter.
 */
module DLCommon {
  import opened Bytes

  // ----------------------------------------------------------------------------
  // XOR checksum (get_checksum)

  /** XOR of every byte of s; 0 for the empty sequence. */
  function XorAll(s: seq<byte>): bv8
  {
    if |s| == 0 then 0 else XorAll(s[..|s| - 1]) ^ (s[|s| - 1] as bv8)
  }

  /** get_checksum: the XOR of every character before the terminator. */
  method GetChecksum(str: seq<byte>) returns (x: bv8)
    requires 0 in str
    ensures x == XorAll(CStr(str))
  {
    x := 0;
    var i := 0;
    while i < StrLen(str)
      invariant i <= StrLen(str)
      invariant x == XorAll(str[..i])
    {
      assert str[..i + 1][..i] == str[..i];
      x := x ^ (str[i] as bv8);
      i := i + 1;
    }
  }

  /** The checksum of a concatenation is the XOR of the parts' checksums. */
  lemma {:induction false} XorAllConcat(a: seq<byte>, b: seq<byte>)
    ensures XorAll(a + b) == XorAll(a) ^ XorAll(b)
    decreases |b|
  {
    if |b| == 0 {
      assert a + b == a;
    } else {
      var b' := b[..|b| - 1];
      assert (a + b)[..|a + b| - 1] == a + b';
      XorAllConcat(a, b');
    }
  }

  /** Appending the checksum byte to the data makes the checksum of the whole 0. */
  lemma ChecksumSelfCancels(s: seq<byte>, b: byte)
    requires b as bv8 == XorAll(s)
    ensures XorAll(s + [b]) == 0
  {
    assert (s + [b])[..|s|] == s;
  }

  // ----------------------------------------------------------------------------
  // CRC-32 (crc_update, crc_string, crc_struct)

  /** The reflected CRC-32 polynomial of IEEE 802.3. */
  const POLY: bv32 := 0xEDB8_8320

  /** crc_table: the CRC of every 4-bit value. */
  const CRC_TABLE: seq<bv32> := [
    0x0000_0000, 0x1db7_1064, 0x3b6e_20c8, 0x26d9_30ac,
    0x76dc_4190, 0x6b6b_51f4, 0x4db2_6158, 0x5005_713c,
    0xedb8_8320, 0xf00f_9344, 0xd6d6_a3e8, 0xcb61_b38c,
    0x9b64_c2b0, 0x86d3_d2d4, 0xa00a_e278, 0xbdbd_f21c
  ]

  /**
   * One step of the reference bit-at-a-time reflected CRC: shift right and,
   * when the bit shifted out was 1, XOR in the polynomial (written without a
   * branch: 0 - (c & 1) is all ones exactly when the low bit is set).
   */
  function Shift1(c: bv32): bv32
  {
    (c >> 1) ^ (POLY & (0 - (c & 1)))
  }

  /**
   * k single-bit steps. (The register is named in the decreases clause only so
   * that a call with a literal count is not unrolled wherever it appears.)
   */
  function BitSteps(c: bv32, k: nat): bv32
    decreases k, c
  {
    if k == 0 then c else BitSteps(Shift1(c), k - 1)
  }

  /** The reference CRC-32 update for one byte: eight single-bit steps. */
  function BitwiseUpdate(crc: bv32, data: bv8): bv32
  {
    BitSteps(crc ^ (data as bv32), 8)
  }

  /**
   * One half of crc_update: tbl_idx takes the low byte of crc ^ x, its low
   * nibble selects the table entry, and the register moves right by 4.
   */
  function NibbleUpdate(crc: bv32, x: bv32): bv32
  {
    var tblIdx := ((crc ^ x) & 0xFF) as bv8;
    CRC_TABLE[(tblIdx & 0x0F) as int] ^ (crc >> 4)
  }

  lemma Steps4(c: bv32)
    ensures BitSteps(c, 4) == Shift1(Shift1(Shift1(Shift1(c))))
  {
    assert BitSteps(c, 4) == BitSteps(Shift1(c), 3);
    assert BitSteps(Shift1(c), 3) == BitSteps(Shift1(Shift1(c)), 2);
    assert BitSteps(Shift1(Shift1(c)), 2) == BitSteps(Shift1(Shift1(Shift1(c))), 1);
    assert BitSteps(Shift1(Shift1(Shift1(c))), 1) == BitSteps(Shift1(Shift1(Shift1(Shift1(c)))), 0);
  }

  /** j + k steps are j steps followed by k steps. */
  lemma {:induction false} StepsAdd(c: bv32, j: nat, k: nat)
    ensures BitSteps(c, j + k) == BitSteps(BitSteps(c, j), k)
    decreases j
  {
    if j > 0 {
      StepsAdd(Shift1(c), j - 1, k);
    }
  }

  /** Every entry of crc_table is four bit steps of its own index. */
  lemma TableIsShift4(n: bv32)
    requires n < 16
    ensures CRC_TABLE[n as int] == BitSteps(n, 4)
  {
    Steps4(n);
    if n < 8 {
      if n < 4 {
        if n == 0 {} else if n == 1 {} else if n == 2 {} else {}
      } else {
        if n == 4 {} else if n == 5 {} else if n == 6 {} else {}
      }
    } else {
      if n < 12 {
        if n == 8 {} else if n == 9 {} else if n == 10 {} else {}
      } else {
        if n == 12 {} else if n == 13 {} else if n == 14 {} else {}
      }
    }
  }

  /** Four bit steps depend on the low nibble only through a table-sized value. */
  lemma SplitNibble(c: bv32)
    ensures BitSteps(c, 4) == BitSteps(c & 0xF, 4) ^ (c >> 4)
  {
    Steps4(c);
    Steps4(c & 0xF);
  }

  /** A table lookup plus a 4-bit shift is four bit steps. */
  lemma NibbleStep(c: bv32)
    ensures CRC_TABLE[(c & 0xF) as int] ^ (c >> 4) == BitSteps(c, 4)
  {
    TableIsShift4(c & 0xF);
    SplitNibble(c);
  }

  /** Feeding a byte in one go or a nibble at a time gives the same eight steps. */
  lemma NibblesOfByte(c: bv32, d: bv32)
    requires d < 256
    ensures BitSteps(BitSteps(c ^ d, 4), 4) == BitSteps(BitSteps(c ^ (d & 0xF), 4) ^ ((d >> 4) & 0xF), 4)
  {
    Steps4(c ^ d);
    Steps4(BitSteps(c ^ d, 4));
    Steps4(c ^ (d & 0xF));
    Steps4(BitSteps(c ^ (d & 0xF), 4) ^ ((d >> 4) & 0xF));
  }

  lemma NibbleUpdateUnfold(crc: bv32, x: bv32)
    ensures NibbleUpdate(crc, x) == CRC_TABLE[((crc ^ (x & 0xF)) & 0xF) as int] ^ ((crc ^ (x & 0xF)) >> 4)
  {
    assert (crc ^ (x & 0xF)) & 0xF == (crc ^ x) & 0xF;
    assert (crc ^ (x & 0xF)) >> 4 == crc >> 4;
    assert ((((crc ^ x) & 0xFF) as bv8) & 0x0F) as int == ((crc ^ x) & 0xF) as int;
  }

  /** Half of crc_update is four bit steps after folding in the low nibble of x. */
  lemma NibbleUpdateIs(crc: bv32, x: bv32)
    ensures NibbleUpdate(crc, x) == BitSteps(crc ^ (x & 0xF), 4)
  {
    NibbleUpdateUnfold(crc, x);
    NibbleStep(crc ^ (x & 0xF));
  }

  lemma ComposeNibbles(crc: bv32, d: bv32, n1: bv32, n2: bv32)
    requires d < 256
    requires n1 == BitSteps(crc ^ (d & 0xF), 4)
    requires n2 == BitSteps(n1 ^ ((d >> 4) & 0xF), 4)
    ensures n2 == BitSteps(crc ^ d, 8)
  {
    StepsAdd(crc ^ d, 4, 4);
    NibblesOfByte(crc, d);
  }

  /** The two halves of crc_update, low nibble first, make eight bit steps. */
  lemma ByteStep(crc: bv32, d: bv32, n1: bv32, n2: bv32)
    requires d < 256
    requires n1 == NibbleUpdate(crc, d)
    requires n2 == NibbleUpdate(n1, d >> 4)
    ensures n2 == BitSteps(crc ^ d, 8)
  {
    NibbleUpdateIs(crc, d);
    NibbleUpdateIs(n1, d >> 4);
    ComposeNibbles(crc, d, n1, n2);
  }

  /** crc_update: the nibble-table update computes the bit-at-a-time CRC-32 step. */
  method CrcUpdate(crc: bv32, data: bv8) returns (r: bv32)
    ensures r == BitwiseUpdate(crc, data)
  {
    var d := data as bv32;
    r := NibbleUpdate(crc, d);
    ghost var low := r;
    r := NibbleUpdate(r, d >> 4);
    ByteStep(crc, d, low, r);
  }

  /** The running CRC register after folding every byte of s into crc. */
  function CrcFold(crc: bv32, s: seq<byte>): bv32
  {
    if |s| == 0 then crc else BitwiseUpdate(CrcFold(crc, s[..|s| - 1]), s[|s| - 1] as bv8)
  }

  lemma CrcFoldSnoc(crc: bv32, s: seq<byte>, x: byte)
    ensures CrcFold(crc, s + [x]) == BitwiseUpdate(CrcFold(crc, s), x as bv8)
  {
    assert (s + [x])[..|s|] == s;
  }

  /** CRC-32 as IEEE 802.3 defines it: start from all ones, complement at the end. */
  function Crc32(s: seq<byte>): bv32
  {
    !CrcFold(0xFFFF_FFFF, s)
  }

  /** crc_string: the CRC-32 of the characters before the terminator. */
  method CrcString(s: seq<byte>) returns (crc: bv32)
    requires 0 in s
    ensures crc == Crc32(CStr(s))
    ensures CStr(s) == [] ==> crc == 0
  {
    crc := 0xFFFF_FFFF;
    var i := 0;
    while s[i] != 0
      invariant i <= StrLen(s)
      invariant crc == CrcFold(0xFFFF_FFFF, s[..i])
      decreases StrLen(s) - i
    {
      StringStep(s, i, crc);
      crc := CrcUpdate(crc, s[i] as bv8);
      i := i + 1;
    }
    crc := !crc;
  }

  lemma StringStep(s: seq<byte>, i: nat, crc: bv32)
    requires i < |s| && crc == CrcFold(0xFFFF_FFFF, s[..i])
    ensures BitwiseUpdate(crc, s[i] as bv8) == CrcFold(0xFFFF_FFFF, s[..i + 1])
  {
    assert s[..i + 1] == s[..i] + [s[i]];
    CrcFoldSnoc(0xFFFF_FFFF, s[..i], s[i]);
  }

  /** The bytes of s other than 0x00, in order. */
  function NonZero(s: seq<byte>): (r: seq<byte>)
    ensures 0 !in r && |r| <= |s|
  {
    if |s| == 0 then []
    else NonZero(s[..|s| - 1]) + (if s[|s| - 1] == 0 then [] else [s[|s| - 1]])
  }

  lemma NonZeroSnoc(s: seq<byte>, x: byte)
    ensures NonZero(s + [x]) == NonZero(s) + (if x == 0 then [] else [x])
  {
    assert (s + [x])[..|s|] == s;
  }

  lemma StructStep(s: seq<byte>, i: nat, crc: bv32, crc': bv32)
    requires i < |s| && crc == CrcFold(0xFFFF_FFFF, NonZero(s[..i]))
    requires crc' == if s[i] == 0 then crc else BitwiseUpdate(crc, s[i] as bv8)
    ensures crc' == CrcFold(0xFFFF_FFFF, NonZero(s[..i + 1]))
  {
    assert s[..i + 1] == s[..i] + [s[i]];
    NonZeroSnoc(s[..i], s[i]);
    if s[i] != 0 {
      CrcFoldSnoc(0xFFFF_FFFF, NonZero(s[..i]), s[i]);
    } else {
      assert NonZero(s[..i + 1]) == NonZero(s[..i]);
    }
  }

  /** crc_struct: the CRC-32 of the first len bytes with every zero byte skipped. */
  method CrcStruct(s: seq<byte>, len: int) returns (crc: bv32)
    requires len <= |s|
    ensures crc == Crc32(NonZero(s[..Max(len, 0)]))
  {
    crc := 0xFFFF_FFFF;
    var i := 0;
    ghost var n := Max(len, 0);
    while i < len
      invariant 0 <= i <= n
      invariant crc == CrcFold(0xFFFF_FFFF, NonZero(s[..i]))
    {
      ghost var prev := crc;
      if s[i] != 0 {
        crc := CrcUpdate(crc, s[i] as bv8);
      }
      StructStep(s, i, prev, crc);
      i := i + 1;
    }
    assert s[..i] == s[..Max(len, 0)];
    crc := !crc;
  }

  lemma {:induction false} NonZeroConcat(a: seq<byte>, b: seq<byte>)
    ensures NonZero(a + b) == NonZero(a) + NonZero(b)
    decreases |b|
  {
    if |b| == 0 {
      assert a + b == a;
    } else {
      var b' := b[..|b| - 1];
      assert (a + b)[..|a + b| - 1] == a + b';
      NonZeroConcat(a, b');
    }
  }

  lemma NonZeroSkipsZero(a: seq<byte>, b: seq<byte>)
    ensures NonZero(a + [0] + b) == NonZero(a + b)
  {
    NonZeroConcat(a + [0], b);
    NonZeroSnoc(a, 0);
    NonZeroConcat(a, b);
  }

  /** Inserting a zero byte anywhere in a record never changes crc_struct's result. */
  lemma ZeroBytesIgnored(a: seq<byte>, b: seq<byte>)
    ensures Crc32(NonZero(a + [0] + b)) == Crc32(NonZero(a + b))
  {
    NonZeroSkipsZero(a, b);
  }

  lemma {:induction false} NonZeroOfZeroFree(s: seq<byte>)
    requires 0 !in s
    ensures NonZero(s) == s
    decreases |s|
  {
    if |s| > 0 {
      NonZeroOfZeroFree(s[..|s| - 1]);
      assert s == s[..|s| - 1] + [s[|s| - 1]];
    }
  }

  /** On a record without zero bytes, crc_struct and crc_string agree. */
  lemma StructAgreesWithString(s: seq<byte>)
    requires 0 in s
    ensures Crc32(NonZero(CStr(s))) == Crc32(CStr(s))
  {
    NonZeroOfZeroFree(CStr(s));
  }

  // ----------------------------------------------------------------------------
  // Decimal formatting (fmtUnsigned)

  const ZERO_CHAR: byte := 0x30

  predicate IsDigit(c: byte) { 0x30 <= c <= 0x39 }

  /** The decimal digits of v, most significant first; 0 has the single digit "0". */
  function Digits(v: nat): (r: seq<byte>)
    ensures 1 <= |r| && forall i :: 0 <= i < |r| ==> IsDigit(r[i])
  {
    (if v < 10 then [] else Digits(v / 10)) + [ZERO_CHAR + v % 10]
  }

  /** The number a string of decimal digits denotes. */
  function DecimalValue(s: seq<byte>): nat
  {
    if |s| == 0 then 0
    else DecimalValue(s[..|s| - 1]) * 10 + (if IsDigit(s[|s| - 1]) then s[|s| - 1] - ZERO_CHAR else 0)
  }

  function Zeros(n: nat): (r: seq<byte>)
    ensures |r| == n && forall i :: 0 <= i < n ==> r[i] == ZERO_CHAR
  {
    seq(n, _ => ZERO_CHAR)
  }

  /** v in decimal, padded on the left with '0' to at least width characters. */
  function Formatted(v: nat, width: nat): (r: seq<byte>)
    ensures |r| == Max(width, |Digits(v)|)
  {
    Zeros(if width > |Digits(v)| then width - |Digits(v)| else 0) + Digits(v)
  }

  /** Reading the digits back gives the number. */
  lemma {:induction false} DigitsValue(v: nat)
    ensures DecimalValue(Digits(v)) == v
    decreases v
  {
    var d := Digits(v);
    var last := ZERO_CHAR + v % 10;
    assert d[|d| - 1] == last && IsDigit(last);
    if v >= 10 {
      DigitsValue(v / 10);
      assert d[..|d| - 1] == Digits(v / 10);
      assert DecimalValue(d) == (v / 10) * 10 + v % 10;
    } else {
      assert d[..|d| - 1] == [];
    }
  }

  /** The most significant digit is never a leading zero, except in "0" itself. */
  lemma {:induction false} DigitsLead(v: nat)
    ensures (Digits(v)[0] == ZERO_CHAR) <==> v == 0
    decreases v
  {
    if v >= 10 {
      DigitsLead(v / 10);
    }
  }

  lemma {:induction false} ZerosValue(n: nat)
    ensures DecimalValue(Zeros(n)) == 0
  {
    if n > 0 {
      ZerosValue(n - 1);
      assert Zeros(n)[..n - 1] == Zeros(n - 1);
    }
  }

  lemma {:induction false} LeadingZerosValue(n: nat, s: seq<byte>)
    ensures DecimalValue(Zeros(n) + s) == DecimalValue(s)
    decreases |s|
  {
    if |s| == 0 {
      assert Zeros(n) + s == Zeros(n);
      ZerosValue(n);
    } else {
      var s' := s[..|s| - 1];
      assert (Zeros(n) + s)[..|Zeros(n) + s| - 1] == Zeros(n) + s';
      LeadingZerosValue(n, s');
    }
  }

  /** Zero padding never changes the value: the formatted text denotes v. */
  lemma FormattedValue(v: nat, width: nat)
    ensures DecimalValue(Formatted(v, width)) == v
  {
    LeadingZerosValue(if width > |Digits(v)| then width - |Digits(v)| else 0, Digits(v));
    DigitsValue(v);
  }

  function Pow10(k: nat): nat
  {
    if k == 0 then 1 else 10 * Pow10(k - 1)
  }

  /** A number below 10^k has at most k digits. */
  lemma {:induction false} DigitsBound(v: nat, k: nat)
    requires 1 <= k && v < Pow10(k)
    ensures |Digits(v)| <= k
    decreases k
  {
    if v >= 10 {
      DigitsBound(v / 10, k - 1);
    }
  }

  function Rev(s: seq<byte>): (r: seq<byte>)
    ensures |r| == |s| && forall i :: 0 <= i < |s| ==> r[i] == s[|s| - 1 - i]
  {
    seq(|s|, i requires 0 <= i < |s| => s[|s| - 1 - i])
  }

  /** Character k of the formatted text: a padding zero, or a digit read back from the reversed digit buffer. */
  lemma FormattedAt(v: nat, width: nat, pad: nat, rdigits: seq<byte>, k: nat)
    requires Digits(v) == Rev(rdigits)
    requires pad == if width > |rdigits| then width - |rdigits| else 0
    requires k < pad + |rdigits|
    ensures Formatted(v, width)[k] == if k < pad then ZERO_CHAR else rdigits[|rdigits| - 1 - (k - pad)]
  {
  }

  /**
   * The first loop of fmtUnsigned: the decimal digits of val, least
   * significant first, in a 12-character buffer.
   */
  method ReversedDigits(val: uint32) returns (dbuf: array<byte>, idx: nat)
    ensures fresh(dbuf) && dbuf.Length == 12
    ensures 1 <= idx <= 10 && Digits(val) == Rev(dbuf[..idx])
  {
    dbuf := new byte[12];
    idx := 0;
    var v: nat := val;
    DigitsBound(val, 10);
    while idx < 12
      invariant idx + |Digits(v)| == |Digits(val)| <= 10
      invariant Digits(val) == Digits(v) + Rev(dbuf[..idx])
    {
      assert v >= 10 ==> Digits(v) == Digits(v / 10) + [ZERO_CHAR + v % 10];
      dbuf[idx] := ZERO_CHAR + v % 10;
      assert dbuf[..idx + 1] == dbuf[..idx] + [ZERO_CHAR + v % 10];
      assert Rev(dbuf[..idx + 1]) == [ZERO_CHAR + v % 10] + Rev(dbuf[..idx]);
      idx := idx + 1;
      v := v / 10;
      if v == 0 {
        break;
      }
    }
  }

  /**
   * fmtUnsigned: writes val in decimal, zero-padded to width, into buf, at most
   * bufLen - 1 characters of it, then a terminating NUL; returns the count.
   */
  method FmtUnsigned(val: uint32, buf: array?<byte>, bufLen: uint16, width: byte) returns (len: nat)
    requires buf != null && bufLen > 0 ==> Min(bufLen - 1, |Formatted(val, width)|) < buf.Length
    modifies buf
    ensures buf == null || bufLen == 0 ==> len == 0
    ensures buf != null && bufLen == 0 ==> unchanged(buf)
    ensures buf != null && bufLen > 0 ==>
      && len == Min(bufLen - 1, |Formatted(val, width)|)
      && buf[..len] == Formatted(val, width)[..len]
      && buf[len] == 0
      && buf[len + 1..] == old(buf[len + 1..])
  {
    if buf == null || bufLen == 0 {
      return 0;
    }
    // the digit string, backwards, in dbuf
    var dbuf: array<byte>, idx: nat := ReversedDigits(val);
    ghost var n0 := idx;
    ghost var f := Formatted(val, width);
    // the optional leading zeroes, then the digits
    len := 0;
    var padding: nat := if width > idx then width - idx else 0;
    ghost var pad0 := padding;
    assert |f| == pad0 + n0;
    var c := ZERO_CHAR;
    var left: int := bufLen;
    while left > 1 && (idx > 0 || padding > 0)  // (--bufLen > 0) && (idx || padding)
      invariant len + left == bufLen && left >= 1
      invariant padding <= pad0 && idx <= n0 && len == (pad0 - padding) + (n0 - idx)
      invariant idx < n0 ==> padding == 0
      invariant idx == n0 ==> c == ZERO_CHAR
      invariant Digits(val) == Rev(dbuf[..n0])
      invariant len <= |f| && len < buf.Length
      invariant forall j :: 0 <= j < len ==> buf[j] == f[j]
      invariant forall j :: len <= j < buf.Length ==> buf[j] == old(buf[j])
    {
      left := left - 1;
      FormattedAt(val, width, pad0, dbuf[..n0], len);
      if padding > 0 {
        padding := padding - 1;
      } else {
        idx := idx - 1;
        c := dbuf[idx];
      }
      buf[len] := c;
      len := len + 1;
    }
    buf[len] := 0;
  }
}
