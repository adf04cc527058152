/**
 Small shared vocabulary for the CC3000 driver model: bytes, C integer
 conversions and an option type for results that an oracle may not be able
 to supply.
 */
module Basics {

  /** An 8-bit unsigned value, as the driver's `unsigned char` buffers hold. */
  type byte = x: int | 0 <= x < 256

  /** `Some` carries a value; `None` marks an outcome the model cannot decide
      (typically: a loop that would need more oracle answers than were given). */
  datatype Option<+T> = None | Some(value: T)

  function Min(a: int, b: int): int {
    if a < b then a else b
  }

  /** The value an `int` has once converted to a 16-bit `unsigned short`. */
  function ToU16(x: int): (r: nat)
    ensures r < 0x1_0000
    ensures 0 <= x < 0x1_0000 ==> r == x
  {
    x % 0x1_0000
  }

  /** The value an `int` has once converted to a 32-bit `uint32_t`. */
  function ToU32(x: int): (r: nat)
    ensures r < 0x1_0000_0000
    ensures 0 <= x < 0x1_0000_0000 ==> r == x
    ensures x < 0 && -x <= 0x1_0000_0000 ==> r == x + 0x1_0000_0000
  {
    x % 0x1_0000_0000
  }

  /** The elements of `s[1..]` are those of `s` shifted down by one. */
  lemma DropFirst<T>(s: seq<T>)
    requires |s| > 0
    ensures forall i :: 0 <= i < |s| - 1 ==> s[1..][i] == s[i + 1]
    ensures forall i :: 1 <= i < |s| ==> s[i] == s[1..][i - 1]
  {
  }
}
