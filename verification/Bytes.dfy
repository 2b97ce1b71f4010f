/** Bytes, fixed-width unsigned integers and their big-endian encodings. */
module Bytes {

  type byte = x: int | 0 <= x < 0x100
  type u16 = x: int | 0 <= x < 0x1_0000
  type u32 = x: int | 0 <= x < 0x1_0000_0000
  const TWO64: nat := 0x1_0000_0000_0000_0000

  type u64 = x: int | 0 <= x < 0x1_0000_0000_0000_0000
  type i64 = x: int | -0x8000_0000_0000_0000 <= x < 0x8000_0000_0000_0000

  type bytes = seq<byte>

  datatype Option<+T> = None | Some(value: T)

  function U16(a: byte, b: byte): u16 {
    a * 0x100 + b
  }

  function U24(a: byte, b: byte, c: byte): u32 {
    a * 0x1_0000 + b * 0x100 + c
  }

  function U32(a: byte, b: byte, c: byte, d: byte): u32 {
    a * 0x100_0000 + b * 0x1_0000 + c * 0x100 + d
  }

  lemma {:induction false} U24Digits(n: u32)
    requires n <= 0xFF_FFFF
    ensures U24(n / 0x1_0000, n / 0x100 % 0x100, n % 0x100) == n
  {}

  lemma {:induction false} U32Digits(n: u32)
    ensures U32(n / 0x1_0000 / 0x100, n / 0x1_0000 % 0x100, n % 0x1_0000 / 0x100, n % 0x100) == n
  {}

  function U16Bytes(n: u16): (r: bytes)
    ensures |r| == 2
  {
    [n / 0x100, n % 0x100]
  }

  function U32Bytes(n: u32): (r: bytes)
    ensures |r| == 4
  {
    [n / 0x1_0000 / 0x100, n / 0x1_0000 % 0x100, n % 0x1_0000 / 0x100, n % 0x100]
  }

  lemma {:induction false} U16BytesValue(n: u16)
    ensures var r := U16Bytes(n); U16(r[0], r[1]) == n
  {}

  lemma {:induction false} U32BytesValue(n: u32)
    ensures var r := U32Bytes(n); U32(r[0], r[1], r[2], r[3]) == n
  {
    U32Digits(n);
  }

  /** The concatenation of a list of byte strings. */
  function Flatten(parts: seq<bytes>): (r: bytes) {
    if parts == [] then [] else parts[0] + Flatten(parts[1..])
  }

  lemma {:induction false} FlattenSnoc(parts: seq<bytes>, last: bytes)
    ensures Flatten(parts + [last]) == Flatten(parts) + last
  {
    if parts == [] {
      assert parts + [last] == [last];
      assert Flatten([last]) == last + Flatten([]);
    } else {
      assert (parts + [last])[1..] == parts[1..] + [last];
      FlattenSnoc(parts[1..], last);
    }
  }

  // ---------------------------------------------------------------- division

  lemma {:induction false} DivModUnique(v: nat, d: nat, q: nat, r: nat)
    requires v == q * d + r && r < d
    ensures v / d == q && v % d == r
  {
    var k := v / d - q;
    assert v / d * d + v % d == v;
    assert k * d == v / d * d - q * d;
    SmallMultiple(k, d);
  }

  lemma {:induction false} SmallMultiple(k: int, d: nat)
    requires 0 - d < k * d < d
    ensures k == 0
  {}
}
