/** Fields of a few bits inside a byte, as a bit reader sees them and as a bit writer leaves them. */
module BitFields {
  import opened Bytes
  import opened Bits
  import opened BitIo

  /** The digit of a number at weight `m` in base `d`. */
  function Part(v: nat, m: nat, d: nat): nat
    requires m > 0 && d > 0
  {
    v / m % d
  }

  /** The bits from `i` to `j` of the low `n` bits of a number, as a number. */
  lemma {:induction false} FieldOfNumber(v: nat, n: nat, i: nat, j: nat)
    requires i <= j <= n
    ensures Value(Binary(v, n)[i..j]) == Part(v, Pow2(n - j), Pow2(j - i))
    decreases n
  {
    hide *;
    if i == j {
      NoField(v, n, i);
    } else {
      BinarySlices(v, n, i, j);
      if j < n {
        FieldOfNumber(v / 2, n - 1, i, j);
        Pow2Step(n - 1 - j);
        PartOfHalf(v, Pow2(n - 1 - j), Pow2(j - i));
      } else {
        FieldOfNumber(v / 2, n - 1, i, n - 1);
        ValueSnoc(Binary(v / 2, n - 1)[i..n - 1], v % 2 == 1);
        Pow2Step(j - 1 - i);
        PartOfHalf(v, 1, Pow2(j - 1 - i));
      }
    }
  }

  lemma {:induction false} PartOfHalf(v: nat, m: nat, d: nat)
    requires m > 0 && d > 0
    ensures Part(v / 2, m, d) == Part(v, 2 * m, d)
    ensures Part(v, 1, 2 * d) == 2 * Part(v / 2, 1, d) + if v % 2 == 1 then 1 else 0
  {
    HalfThenShift(v, m);
    HalfThenShift(v, d);
  }

  lemma {:induction false} Pow2Step(n: nat)
    ensures Pow2(0) == 1 && Pow2(n + 1) == 2 * Pow2(n)
  {}

  lemma {:induction false} NoField(v: nat, n: nat, i: nat)
    requires i <= n
    ensures Value(Binary(v, n)[i..i]) == 0 == Part(v, Pow2(n - i), Pow2(i - i))
  {
    assert Binary(v, n)[i..i] == [];
    assert Pow2(0) == 1;
  }

  lemma {:induction false} BinarySlices(v: nat, n: nat, i: nat, j: nat)
    requires i < j <= n
    ensures j < n ==> Binary(v, n)[i..j] == Binary(v / 2, n - 1)[i..j]
    ensures j == n ==> Binary(v, n)[i..j] == Binary(v / 2, n - 1)[i..n - 1] + [v % 2 == 1]
  {
    var b, c := Binary(v, n), Binary(v / 2, n - 1);
    assert b == c + [v % 2 == 1];
    hide Binary;
  }

  lemma {:induction false} HalfThenShift(v: nat, m: nat)
    requires m > 0
    ensures v / 2 / m == v / (2 * m)
    ensures v % (2 * m) == 2 * (v / 2 % m) + v % 2
  {
    var q := v / 2 / m;
    assert v / 2 == q * m + v / 2 % m;
    assert v == q * (2 * m) + (2 * (v / 2 % m) + v % 2);
    DivModUnique(v, 2 * m, q, 2 * (v / 2 % m) + v % 2);
  }

  lemma {:induction false} SliceOfSlice(s: bits, a: nat, i: nat, j: nat)
    requires a + 8 <= |s| && i <= j <= 8
    ensures s[a..a + 8][i..j] == s[a + i..a + j]
  {
    var x, y := s[a..a + 8][i..j], s[a + i..a + j];
    assert forall k :: 0 <= k < |x| ==> x[k] == y[k];
  }

  /** A field of the byte at `p`, read from the bits of the whole string. */
  lemma {:induction false} Field(data: bytes, p: nat, i: nat, j: nat)
    requires p < |data| && i <= j <= 8
    ensures 8 * p + j <= |BitsOf(data)|
    ensures Value(BitsOf(data)[8 * p + i..8 * p + j]) == data[p] / Pow2(8 - j) % Pow2(j - i)
  {
    hide Value, Binary, BitsOf, Pow2;
    BitsOfSlice(data, p, p + 1);
    assert data[p..p + 1] == [data[p]];
    BitsOfByte(data[p]);
    FieldOfNumber(data[p], 8, i, j);
    SliceOfSlice(BitsOf(data), 8 * p, i, j);
  }

  lemma {:induction false} FieldBit(data: bytes, p: nat, i: nat)
    requires p < |data| && i < 8
    ensures BitsOf(data)[8 * p + i] == (data[p] / Pow2(7 - i) % 2 == 1)
  {
    Field(data, p, i, i + 1);
    hide BitsOf;
    var s := BitsOf(data)[8 * p + i..8 * p + i + 1];
    assert s == [] + [BitsOf(data)[8 * p + i]];
    ValueSnoc([], BitsOf(data)[8 * p + i]);
    assert Pow2(1) == 2;
  }

  function Bit(b: bool): nat { if b then 1 else 0 }

  /** Two numbers side by side are one number. */
  lemma {:induction false} BinaryJoin(a: nat, i: nat, b: nat, j: nat)
    requires b < Pow2(j)
    ensures Binary(a, i) + Binary(b, j) == Binary(a * Pow2(j) + b, i + j)
    decreases j
  {
    if j == 0 {
      assert Binary(a, i) + [] == Binary(a, i);
    } else {
      var m := Pow2(j - 1);
      BinaryJoin(a, i, b / 2, j - 1);
      assert a * Pow2(j) == 2 * (a * m);
      var v := a * Pow2(j) + b;
      assert v / 2 == a * m + b / 2 && v % 2 == b % 2;
    }
  }

  lemma {:induction false} BinaryOfBit(b: bool)
    ensures [b] == Binary(Bit(b), 1)
  {
    assert Binary(1, 1) == [] + [true] && Binary(0, 1) == [] + [false];
  }

  // ---------------------------------------------------------------- on byte boundaries

  /** A bit reader at the start of a byte of its stream. */
  ghost predicate AtByte(r: BitReader, p: nat)
    reads r
  {
    r.Valid() && r.Position() == 8 * p && p <= |r.data|
  }

  /** A bit reader that has not left its stream. */
  ghost predicate Inside(r: BitReader)
    reads r
  {
    r.Valid() && r.Position() <= |r.Stream()|
  }

  lemma {:induction false} AtByteIs(r: BitReader, p: nat)
    ensures AtByte(r, p) ==> Inside(r) && r.dataPos == p && r.IsAligned()
    ensures Inside(r) ==> r.dataPos <= |r.data|
    ensures |r.Stream()| == 8 * |r.data|
  {
    hide BitsOf;
  }

  /** Eight bits on a byte boundary are that byte. */
  method ReadByteOf(r: BitReader, ghost p: nat) returns (b: Option<byte>)
    requires AtByte(r, p)
    modifies r
    ensures p < |r.data| ==> b == Some(r.data[p]) && AtByte(r, p + 1)
    ensures p >= |r.data| ==> b == None && Inside(r)
  {
    hide Value, BitsOf, Pow2, BitReader.Valid, BitReader.Position;
    var x := r.ReadBits(8);
    if p < |r.data| {
      Field(r.data, p, 0, 8);
      Pow2Of8();
      Pow2Step(0);
    }
    return if x.None? then None else Some(x.value);
  }

  method ReadBytesOf(r: BitReader, n: nat, ghost p: nat) returns (b: Option<bytes>)
    requires AtByte(r, p) && n > 0
    modifies r
    ensures if p + n <= |r.data| then b == Some(r.data[p..p + n]) && AtByte(r, p + n) else b == None
  {
    hide BitsOf, BitReader.Valid, BitReader.Position;
    b := r.ReadExact(n);
    if p + n <= |r.data| {
      BitsOfSlice(r.data, p, p + n);
      BitsOfInjective(b.value, r.data[p..p + n]);
    }
  }

  /** Whole bytes are handed over as they are. */
  method Finish(w: BitWriter, ghost b: bytes) returns (r: Option<bytes>)
    requires w.Valid() && w.Contents() == BitsOf(b)
    modifies w
    ensures r == Some(b)
  {
    hide BitsOf, BitWriter.Valid, BitWriter.Contents, Zeros;
    w.Align();
    assert BitsOf(b) + Zeros(0) == BitsOf(b);
    BitsOfInjective(w.out, b);
    return Some(w.out);
  }
}
