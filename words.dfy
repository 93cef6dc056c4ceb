/** Machine integers of the 32-bit big-endian PowerPC target, and small shared helpers. */
module Words {

  const TWO32: int := 0x1_0000_0000
  const TWO31: int := 0x8000_0000

  type byte = x: int | 0 <= x < 0x100
  type u32 = x: int | 0 <= x < 0x1_0000_0000

  /** `a + b` in uint32_t: the sum modulo 2^32. */
  function Add32(a: u32, b: u32): (r: u32)
    ensures a + b < TWO32 ==> r == a + b
    ensures a + b >= TWO32 ==> r == a + b - TWO32
  {
    if a + b < TWO32 then a + b else a + b - TWO32
  }

  /** `(int32_t) x` for a 32-bit unsigned value. */
  function Int32(x: u32): (r: int)
    ensures -TWO31 <= r < TWO31
    ensures r == x || r == x - TWO32
    ensures r < 0 <==> x >= TWO31
  {
    if x < TWO31 then x else x - TWO32
  }

  /** A big-endian 16-bit field at offset `p`. */
  function Be16(s: seq<byte>, p: nat): (r: nat)
    requires p + 2 <= |s|
    ensures r < 0x1_0000
  {
    (s[p] as int) * 0x100 + s[p + 1]
  }

  /** A big-endian 32-bit field at offset `p`. */
  function Be32(s: seq<byte>, p: nat): (r: u32)
    requires p + 4 <= |s|
  {
    (((s[p] as int) * 0x100 + s[p + 1]) * 0x100 + s[p + 2]) * 0x100 + s[p + 3]
  }

  datatype Option<T> = None | Some(value: T)

  // Regrouping concatenations, for traces built up in steps.

  lemma AppendAssoc<T>(a: seq<T>, b: seq<T>, c: seq<T>)
    ensures a + b + c == a + (b + c)
  {
  }

  lemma AppendThree<T>(e: seq<T>, a: seq<T>, b: seq<T>, c: seq<T>)
    ensures e + a + b + c == e + (a + b + c)
  {
  }

  lemma AppendFour<T>(e: seq<T>, a: seq<T>, b: seq<T>, c: seq<T>, d: seq<T>)
    ensures e + a + b + c + d == e + (a + b + c + d)
  {
  }

  function Min(a: int, b: int): int {
    if a <= b then a else b
  }
}
