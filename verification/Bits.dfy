/** Bit strings: the bits of a byte string, most significant first, and the numbers they spell. */
module Bits {
  import opened Bytes

  type bits = seq<bool>

  function Pow2(n: nat): (r: nat)
    ensures r >= 1
  {
    if n == 0 then 1 else 2 * Pow2(n - 1)
  }

  /** A number shifted right by `k` bits. */
  function Shr(v: nat, k: nat): nat {
    if k == 0 then v else Shr(v / 2, k - 1)
  }

  /** The low `n` bits of a number, most significant first. */
  function Binary(v: nat, n: nat): (r: bits)
    ensures |r| == n
  {
    if n == 0 then [] else Binary(v / 2, n - 1) + [v % 2 == 1]
  }

  /** The `i`-th of the low `n` bits of a number, as a shift takes it. */
  lemma {:induction false} BinaryAt(v: nat, n: nat, i: nat)
    requires i < n
    ensures Binary(v, n)[i] == (Shr(v, n - 1 - i) % 2 == 1)
    decreases n
  {
    if i < n - 1 {
      BinaryAt(v / 2, n - 1, i);
    }
  }

  function BitAt(data: bytes, i: nat): bool
    requires i < 8 * |data|
  {
    Binary(data[i / 8], 8)[i % 8]
  }

  function BitsOf(data: bytes): (r: bits)
    ensures |r| == 8 * |data|
  {
    seq(8 * |data|, i requires 0 <= i < 8 * |data| => BitAt(data, i))
  }

  lemma {:induction false} BitsOfAppend(a: bytes, b: bytes)
    ensures BitsOf(a + b) == BitsOf(a) + BitsOf(b)
  {
    hide Binary;
    forall i | 0 <= i < 8 * |a + b| ensures BitsOf(a + b)[i] == (BitsOf(a) + BitsOf(b))[i] {
      if i >= 8 * |a| {
        assert i / 8 - |a| == (i - 8 * |a|) / 8 && i % 8 == (i - 8 * |a|) % 8;
      }
    }
  }

  lemma {:induction false} BitsOfByte(b: byte)
    ensures BitsOf([b]) == Binary(b, 8)
  {
    hide Binary;
    forall i | 0 <= i < 8 ensures BitsOf([b])[i] == Binary(b, 8)[i] {
      assert i / 8 == 0 && i % 8 == i;
    }
  }

  lemma {:induction false} BitsOfSlice(data: bytes, i: nat, j: nat)
    requires i <= j <= |data|
    ensures BitsOf(data)[8 * i..8 * j] == BitsOf(data[i..j])
  {
    assert data == data[..i] + (data[i..j] + data[j..]);
    BitsOfAppend(data[..i], data[i..j] + data[j..]);
    BitsOfAppend(data[i..j], data[j..]);
    hide BitsOf;
  }

  // ---------------------------------------------------------------- numbers

  /** The number a bit string spells, most significant bit first. */
  function Value(s: bits): (r: nat)
    ensures r < Pow2(|s|)
  {
    if s == [] then 0 else 2 * Value(s[..|s| - 1]) + if s[|s| - 1] then 1 else 0
  }

  lemma {:induction false} ValueSnoc(s: bits, b: bool)
    ensures Value(s + [b]) == 2 * Value(s) + if b then 1 else 0
  {
    assert (s + [b])[..|s|] == s;
  }

  lemma {:induction false} ValueOfBinary(v: nat, n: nat)
    requires v < Pow2(n)
    ensures Value(Binary(v, n)) == v
    decreases n
  {
    if n > 0 {
      ValueOfBinary(v / 2, n - 1);
      ValueSnoc(Binary(v / 2, n - 1), v % 2 == 1);
    }
  }

  lemma {:induction false} BinaryOfValue(s: bits)
    ensures Binary(Value(s), |s|) == s
  {
    if s != [] {
      var t := s[..|s| - 1];
      BinaryOfValue(t);
      assert s == t + [s[|s| - 1]];
      assert Value(s) / 2 == Value(t);
    }
  }

  lemma {:induction false} Pow2Of8()
    ensures Pow2(1) == 2 && Pow2(2) == 4 && Pow2(3) == 8 && Pow2(4) == 16
    ensures Pow2(5) == 32 && Pow2(6) == 64 && Pow2(7) == 128 && Pow2(8) == 256
  {
    assert Pow2(4) == 16;
  }

  lemma {:induction false} Pow2Monotone(a: nat, b: nat)
    requires a <= b
    ensures Pow2(a) <= Pow2(b)
    decreases b
  {
    if a < b {
      Pow2Monotone(a, b - 1);
    }
  }

  lemma {:induction false} Pow2Of64()
    ensures Pow2(64) == 0x1_0000_0000_0000_0000
  {
    Pow2Of8();
    Pow2Add(8, 8); Pow2Add(16, 16); Pow2Add(32, 32);
  }

  lemma {:induction false} Pow2Add(a: nat, b: nat)
    ensures Pow2(a + b) == Pow2(a) * Pow2(b)
    decreases b
  {
    if b > 0 {
      Pow2Add(a, b - 1);
      assert Pow2(a + b) == 2 * Pow2(a + (b - 1));
    }
  }
}
