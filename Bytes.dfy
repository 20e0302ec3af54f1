/** Machine-level value types shared by the FAT engine and the data logger. */
module Bytes {

  /** An unsigned 8-bit value (uint8_t). */
  type byte = b: int | 0 <= b < 0x100

  const UINT16_LIMIT: nat := 0x1_0000
  const UINT32_LIMIT: nat := 0x1_0000_0000

  /** An unsigned 16-bit value (uint16_t, and unsigned int on the AVR target). */
  type uint16 = x: int | 0 <= x < 0x1_0000

  /** An unsigned 32-bit value (uint32_t, and unsigned long on the AVR target). */
  type uint32 = x: int | 0 <= x < 0x1_0000_0000

  function Min(a: int, b: int): int { if a <= b then a else b }
  function Max(a: int, b: int): int { if a >= b then a else b }

  datatype Option<T> = None | Some(value: T)

  /** 2 to the power k. */
  function Pow2(k: nat): (r: nat)
    ensures r >= 1
  {
    if k == 0 then 1 else 2 * Pow2(k - 1)
  }

  /** Length of the NUL-terminated C string held in s: the index of its first NUL. */
  function StrLen(s: seq<byte>): (k: nat)
    requires 0 in s
    ensures k < |s| && s[k] == 0
    ensures forall i :: 0 <= i < k ==> s[i] != 0
  {
    StrLenFrom(s, 0)
  }

  function StrLenFrom(s: seq<byte>, j: nat): (k: nat)
    requires j <= |s| && exists i :: j <= i < |s| && s[i] == 0
    ensures j <= k < |s| && s[k] == 0
    ensures forall i :: j <= i < k ==> s[i] != 0
    decreases |s| - j
  {
    if s[j] == 0 then j else StrLenFrom(s, j + 1)
  }

  /** The characters of the C string held in s, without its terminator. */
  function CStr(s: seq<byte>): (r: seq<byte>)
    requires 0 in s
    ensures 0 !in r && r + [0] <= s
  {
    s[..StrLen(s)]
  }

  /** A 16-bit value as the int16_t it converts to: the value in -32768 .. 32767 with the same low 16 bits. */
  function AsInt16(x: uint16): (r: int)
    ensures -0x8000 <= r < 0x8000 && (x - r) % UINT16_LIMIT == 0
    ensures r >= 0 <==> x < 0x8000
  {
    if x < 0x8000 then x else x - UINT16_LIMIT
  }

  /** Bitwise exclusive or of two bytes. */
  function Xor8(a: byte, b: byte): (r: byte)
  {
    ((a as bv8) ^ (b as bv8)) as int
  }
}
