/** Exponential-Golomb codes, section 9.1 of ISO/IEC 14496-10, written and read bit by bit. */
module ExpGolomb {
  import opened Bytes
  import opened Bits
  import opened BitIo
  import opened BitFields

  const TWO63: int := 0x8000_0000_0000_0000

  /** 64-bit addition of one. */
  function Succ(n: u64): u64 { (n + 1) % TWO64 }

  function Log2(n: nat): nat { if n <= 1 then 0 else 1 + Log2(n / 2) }

  /** The code of a number: its successor in binary, after as many zeros as it has bits below the top one. */
  function Code(n: u64): bits {
    Zeros(Log2(Succ(n))) + Binary(Succ(n), Log2(Succ(n)) + 1)
  }

  // ---------------------------------------------------------------- writing

  method WriteExpGolomb(w: BitWriter, input: u64)
    requires w.Valid()
    modifies w
    ensures w.Valid() && w.Contents() == old(w.Contents()) + Code(input)
  {
    hide Binary, BitWriter.Valid, BitWriter.Contents;
    var number, leadingZeros := Succ(input), 0;
    while number > 1
      invariant leadingZeros + Log2(number) == Log2(Succ(input))
    {
      number := number / 2;
      leadingZeros := leadingZeros + 1;
    }
    Log2Bounds(Succ(input));
    hide Log2, Pow2;
    for i := 0 to leadingZeros
      invariant w.Valid() && w.Contents() == old(w.Contents()) + Zeros(i)
    {
      w.WriteBit(false);
    }
    var _ := w.WriteBits(Succ(input), leadingZeros + 1);
  }

  method SizeOfExpGolomb(input: u64) returns (size: nat)
    ensures size == |Code(input)|
  {
    var number, leadingZeros := Succ(input), 0;
    while number > 1
      invariant leadingZeros + Log2(number) == Log2(Succ(input))
    {
      number := number / 2;
      leadingZeros := leadingZeros + 1;
    }
    return leadingZeros * 2 + 1;
  }

  lemma {:induction false} Log2Bounds(n: nat)
    ensures n < Pow2(Log2(n) + 1)
    ensures n >= 1 ==> Pow2(Log2(n)) <= n && Binary(n, Log2(n) + 1)[0]
    ensures n < TWO64 ==> Log2(n) < 64
  {
    if n > 1 {
      Log2Bounds(n / 2);
    } else {
      assert Pow2(1) == 2 && Binary(1, 1) == Binary(0, 0) + [true];
    }
    if n < TWO64 && Log2(n) >= 64 {
      Pow2Of64();
      Pow2Monotone(64, Log2(n));
    }
  }

  // ---------------------------------------------------------------- reading

  function FirstOne(s: bits, p: nat): (q: nat)
    ensures p <= q && (p <= |s| ==> q <= |s|)
    decreases |s| - p
  {
    if p >= |s| || s[p] then p else FirstOne(s, p + 1)
  }

  datatype Parsed = Parsed(value: u64, next: nat)

  /** What a code at a position of a bit stream stands for, in 64-bit arithmetic, and where it ends. */
  function Parse(s: bits, p: nat): Option<Parsed> {
    var q := FirstOne(s, p);
    var end := q + 1 + (q - p);
    if end > |s| then None
    else Some(Parsed((Value(s[q..end]) - 1) % TWO64, end))
  }

  method ReadExpGolomb(r: BitReader) returns (n: Option<u64>)
    requires r.Valid()
    modifies r
    ensures r.Valid()
    ensures var e := Parse(r.Stream(), old(r.Position()));
            if e.None? then n == None else n == Some(e.value.value) && r.Position() == e.value.next
  {
    hide Value, BitReader.Valid, BitReader.Stream, BitReader.Position;
    var leadingZeros := CountZeros(r);
    if leadingZeros.None? {
      return None;
    }
    hide FirstOne;
    n := ReadRest(r, leadingZeros.value);
  }

  /** Reads up to and including the first one bit. */
  method CountZeros(r: BitReader) returns (count: Option<nat>)
    requires r.Valid()
    modifies r
    ensures r.Valid()
    ensures var s, p := r.Stream(), old(r.Position());
            if FirstOne(s, p) >= |s| then count == None
            else count == Some(FirstOne(s, p) - p) && r.Position() == FirstOne(s, p) + 1 && s[FirstOne(s, p)]
  {
    hide BitReader.Valid, BitReader.Stream, BitReader.Position;
    ghost var s, p := r.Stream(), r.Position();
    var leadingZeros := 0;
    var bit := r.ReadBit();
    while bit == Some(false)
      invariant r.Valid() && FirstOne(s, p) == FirstOne(s, p + leadingZeros)
      invariant bit.None? <==> p + leadingZeros >= |s|
      invariant bit.Some? ==> r.Position() == p + leadingZeros + 1 && bit.value == s[p + leadingZeros]
      decreases |s| - (p + leadingZeros)
    {
      leadingZeros := leadingZeros + 1;
      bit := r.ReadBit();
    }
    return if bit.None? then None else Some(leadingZeros);
  }

  /** Reads the bits below the leading one into a 64-bit number. */
  method ReadRest(r: BitReader, leadingZeros: nat) returns (n: Option<u64>)
    requires r.Valid() && 0 < r.Position() <= |r.Stream()| && r.Stream()[r.Position() - 1]
    modifies r
    ensures r.Valid()
    ensures var s, q := r.Stream(), old(r.Position()) - 1;
            var end := q + 1 + leadingZeros;
            if end > |s| then n == None
            else n == Some((Value(s[q..end]) - 1) % TWO64) && r.Position() == end
  {
    hide Value, BitReader.Valid, BitReader.Stream, BitReader.Position;
    ghost var s, q := r.Stream(), r.Position() - 1;
    var result: u64 := 1;
    OneBitValue(s, q);
    for i := 0 to leadingZeros
      invariant r.Valid() && r.Position() == q + i + 1 <= |s|
      invariant result == Value(s[q..q + i + 1]) % TWO64
    {
      var bit := r.ReadBit();
      if bit.None? {
        return None;
      }
      Shifted(s, q, q + i + 1);
      result := (result * 2 + if bit.value then 1 else 0) % TWO64;
    }
    LessOne(Value(s[q..q + leadingZeros + 1]));
    return Some((result - 1) % TWO64);
  }

  lemma {:induction false} LessOne(v: nat)
    ensures (v % TWO64 - 1) % TWO64 == (v - 1) % TWO64
  {}

  lemma {:induction false} OneBitValue(s: bits, q: nat)
    requires q < |s| && s[q]
    ensures Value(s[q..q + 1]) == 1
  {
    assert s[q..q + 1] == [] + [true];
    ValueSnoc([], true);
  }

  lemma {:induction false} Shifted(s: bits, q: nat, j: nat)
    requires q <= j < |s|
    ensures var v := Value(s[q..j]) % TWO64;
            Value(s[q..j + 1]) % TWO64 == (v * 2 + if s[j] then 1 else 0) % TWO64
  {
    assert s[q..j + 1] == s[q..j] + [s[j]];
    ValueSnoc(s[q..j], s[j]);
    hide *;
    Doubled(Value(s[q..j]), if s[j] then 1 else 0);
  }

  lemma {:induction false} Doubled(v: nat, b: nat)
    ensures (v * 2 + b) % TWO64 == (v % TWO64 * 2 + b) % TWO64
  {
    assert v * 2 + b == v % TWO64 * 2 + b + v / TWO64 * 2 * TWO64;
    Multiple(v % TWO64 * 2 + b, v / TWO64 * 2);
  }

  lemma {:induction false} Multiple(a: nat, m: nat)
    ensures (a + m * TWO64) % TWO64 == a % TWO64
    decreases m
  {
    if m > 0 {
      Multiple(a, m - 1);
      assert a + m * TWO64 == a + (m - 1) * TWO64 + TWO64;
    }
  }

  // ---------------------------------------------------------------- round trip

  /**
   At any place of a bit stream and before anything else, a written number reads back, taking exactly
   its size in bits, if and only if it is not the largest 64-bit number.
   */
  lemma {:induction false} RoundTripExactlyWhen(before: bits, n: u64, after: bits)
    ensures Parse(before + Code(n) + after, |before|) == Some(Parsed(n, |before| + |Code(n)|))
            <==> n < TWO64 - 1
  {
    hide *;
    if n < TWO64 - 1 {
      CodeIs(n);
      ReadsCode(before, Log2(n + 1), Binary(n + 1, Log2(n + 1) + 1), after);
    } else {
      LargestCode(n);
      ZeroFirst(before + Code(n) + after, |before|);
    }
  }

  lemma {:induction false} CodeIs(n: u64)
    requires n < TWO64 - 1
    ensures Code(n) == Zeros(Log2(n + 1)) + Binary(n + 1, Log2(n + 1) + 1)
    ensures var b := Binary(n + 1, Log2(n + 1) + 1); b[0] && Value(b) == n + 1
    ensures (n + 1 - 1) % TWO64 == n
  {
    assert Succ(n) == n + 1;
    hide Succ, Log2, Binary, Value, Pow2;
    Log2Bounds(n + 1);
    ValueOfBinary(n + 1, Log2(n + 1) + 1);
  }

  lemma {:induction false} LargestCode(n: u64)
    requires n >= TWO64 - 1
    ensures Code(n) == [false]
  {
    assert Binary(0, 1) == [] + [false];
  }

  /** A code that begins with a zero bit is longer than one bit. */
  lemma {:induction false} ZeroFirst(s: bits, p: nat)
    requires p < |s| && !s[p]
    ensures Parse(s, p).Some? ==> Parse(s, p).value.next > p + 1
  {
    hide Value;
    assert FirstOne(s, p) >= p + 1;
  }

  lemma {:induction false} ReadsCode(before: bits, k: nat, b: bits, after: bits)
    requires |b| == k + 1 && b[0]
    ensures Parse(before + (Zeros(k) + b) + after, |before|) ==
            Some(Parsed((Value(b) - 1) % TWO64, |before| + |Zeros(k) + b|))
  {
    hide Value;
    var s := before + (Zeros(k) + b) + after;
    var p := |before|;
    assert s[p..p + k] == Zeros(k);
    assert s[p + k] == b[0];
    SkipsZeros(s, p, k);
    hide Zeros, FirstOne;
    assert s[p + k..p + k + 1 + k] == b;
  }

  lemma {:induction false} SkipsZeros(s: bits, p: nat, k: nat)
    requires p + k < |s| && s[p + k] && s[p..p + k] == Zeros(k)
    ensures FirstOne(s, p) == p + k
    decreases k
  {
    if k > 0 {
      ZeroAt(k, 0);
      assert s[p] == s[p..p + k][0];
      ZerosTail(k);
      assert s[p + 1..p + 1 + (k - 1)] == s[p..p + k][1..];
      SkipsZeros(s, p + 1, k - 1);
    }
  }

  lemma {:induction false} ZerosTail(k: nat)
    requires k > 0
    ensures Zeros(k)[1..] == Zeros(k - 1)
  {
    if k > 1 {
      ZerosTail(k - 1);
    }
  }

  lemma {:induction false} ZeroAt(n: nat, i: nat)
    requires i < n
    ensures !Zeros(n)[i]
  {
    if i < n - 1 {
      ZeroAt(n - 1, i);
    }
  }

  /** Nothing overflows on the way: every prefix of the code from its first one on is a 64-bit number. */
  lemma {:induction false} NothingOverflows(n: u64, j: nat)
    requires n < TWO64 - 1 && Log2(n + 1) <= j <= |Code(n)|
    ensures Value(Code(n)[Log2(n + 1)..j]) <= n + 1 < TWO64
  {
    hide *;
    var k := Log2(n + 1);
    CodeIs(n);
    assert Code(n)[k..j] == Binary(n + 1, k + 1)[..j - k];
    PrefixValue(Binary(n + 1, k + 1), j - k);
  }

  lemma {:induction false} PrefixValue(s: bits, i: nat)
    requires i <= |s|
    ensures Value(s[..i]) <= Value(s)
    decreases |s|
  {
    if i < |s| {
      assert s[..|s| - 1][..i] == s[..i];
      PrefixValue(s[..|s| - 1], i);
    } else {
      assert s[..i] == s;
    }
  }

  // ---------------------------------------------------------------- signed numbers

  /** Zero and the negative numbers become the even numbers, the positive ones the odd numbers. */
  function Fold(n: i64): u64 {
    if n <= 0 then (0 - n) * 2 % TWO64 else n * 2 - 1
  }

  /** The way back, in 64-bit arithmetic. */
  function Unfold(e: u64): i64 {
    if e % 2 == 0 then -(e / 2)
    else if e / 2 + 1 == TWO63 then -TWO63
    else e / 2 + 1
  }

  method WriteSignedExpGolomb(w: BitWriter, n: i64)
    requires w.Valid()
    modifies w
    ensures w.Valid() && w.Contents() == old(w.Contents()) + Code(Fold(n))
  {
    WriteExpGolomb(w, Fold(n));
  }

  method SizeOfSignedExpGolomb(n: i64) returns (size: nat)
    ensures size == |Code(Fold(n))|
  {
    size := SizeOfExpGolomb(Fold(n));
  }

  method ReadSignedExpGolomb(r: BitReader) returns (n: Option<i64>)
    requires r.Valid()
    modifies r
    ensures r.Valid()
    ensures var e := Parse(r.Stream(), old(r.Position()));
            if e.None? then n == None else n == Some(Unfold(e.value.value)) && r.Position() == e.value.next
  {
    var e := ReadExpGolomb(r);
    return if e.None? then None else Some(Unfold(e.value));
  }

  /** Every signed number but the smallest one survives; that one becomes zero. */
  lemma {:induction false} SignedRoundTripExactlyWhen(before: bits, n: i64, after: bits)
    ensures var e := Parse(before + Code(Fold(n)) + after, |before|);
            && e.Some? && e.value.next == |before| + |Code(Fold(n))|
            && (Unfold(e.value.value) == n <==> n > -TWO63)
  {
    hide Parse, Code;
    RoundTripExactlyWhen(before, Fold(n), after);
  }

  // ---------------------------------------------------------------- lists

  function Codes(numbers: seq<i64>): bits {
    if numbers == [] then []
    else Codes(numbers[..|numbers| - 1]) + Code(Fold(numbers[|numbers| - 1]))
  }

  lemma {:induction false} CodesSnoc(numbers: seq<i64>, n: i64)
    ensures Codes(numbers + [n]) == Codes(numbers) + Code(Fold(n))
  {
    assert (numbers + [n])[..|numbers|] == numbers;
  }

  lemma {:induction false} CodesPrefix(numbers: seq<i64>, i: nat)
    requires i <= |numbers|
    ensures Codes(numbers[..i]) <= Codes(numbers)
  {
    hide Code;
    if i < |numbers| {
      assert numbers[..|numbers| - 1][..i] == numbers[..i];
      CodesPrefix(numbers[..|numbers| - 1], i);
    } else {
      assert numbers[..i] == numbers;
    }
  }

  /** The `i`-th code of a list that stands behind other bits and before others. */
  lemma {:induction false} NthCode(s: bits, before: bits, numbers: seq<i64>, i: nat)
    requires i < |numbers| && before + Codes(numbers) <= s
    ensures before + Codes(numbers[..i]) + Code(Fold(numbers[i])) <= s
    ensures Codes(numbers[..i + 1]) == Codes(numbers[..i]) + Code(Fold(numbers[i]))
  {
    hide Code, Codes;
    assert numbers[..i + 1] == numbers[..i] + [numbers[i]];
    CodesSnoc(numbers[..i], numbers[i]);
    CodesPrefix(numbers, i + 1);
  }

  /** Any number of bits, then signed numbers, then padding: the numbers come back in order. */
  method SignedListRoundTrip(before: bits, numbers: seq<i64>) returns (back: seq<i64>)
    requires forall i :: 0 <= i < |numbers| ==> numbers[i] > -TWO63
    ensures back == numbers
  {
    var out := WriteSignedList(before, numbers);
    hide *;
    ghost var s := BitsOf(out);
    var r := new BitReader(out);
    StreamIs(r);
    for i := 0 to |before|
      invariant fresh(r) && r.Valid() && r.data == out && r.Position() == i
    {
      var _ := r.ReadBit();
    }
    back := [];
    NoCodes();
    for i := 0 to |numbers|
      invariant fresh(r) && r.Valid() && r.data == out && back == numbers[..i]
      invariant r.Position() == |before| + |Codes(numbers[..i])|
    {
      NthCode(s, before, numbers, i);
      var pre := before + Codes(numbers[..i]);
      var code := Code(Fold(numbers[i]));
      assert s == pre + code + s[|pre + code|..];
      SignedRoundTripExactlyWhen(pre, numbers[i], s[|pre + code|..]);
      var n := ReadSignedExpGolomb(r);
      back := back + [n.value];
    }
    assert numbers[..|numbers|] == numbers;
  }

  lemma {:induction false} StreamIs(r: BitReader)
    ensures r.Stream() == BitsOf(r.data)
  {}

  lemma {:induction false} NoCodes()
    ensures Codes([]) == []
  {}

  method WriteSignedList(before: bits, numbers: seq<i64>) returns (out: bytes)
    ensures before + Codes(numbers) <= BitsOf(out)
  {
    hide Code, Codes, BitWriter.Valid, BitWriter.Contents, BitsOf, Zeros, Fold;
    var w := new BitWriter();
    for i := 0 to |before|
      invariant fresh(w) && w.Valid() && w.Contents() == before[..i]
    {
      w.WriteBit(before[i]);
    }
    NoCodes();
    assert before[..|before|] == before == before + [];
    for i := 0 to |numbers|
      invariant fresh(w) && w.Valid() && w.Contents() == before + Codes(numbers[..i])
    {
      assert numbers[..i + 1] == numbers[..i] + [numbers[i]];
      CodesSnoc(numbers[..i], numbers[i]);
      WriteSignedExpGolomb(w, numbers[i]);
    }
    assert numbers[..|numbers|] == numbers;
    w.Align();
    out := w.out;
  }

  // ---------------------------------------------------------------- the codes themselves

  /** Number 2^k - 1 + r, where r has k bits, is k zero bits, a one bit, and r. */
  lemma {:induction false} CodesAre(k: nat, r: nat)
    requires k < 64 && r < Pow2(k) && Pow2(k) - 1 + r < TWO64 - 1
    ensures Code(Pow2(k) - 1 + r) == Zeros(k) + [true] + Binary(r, k)
  {
    hide Pow2, Code, Binary, Zeros, Log2;
    CodeIs(Pow2(k) - 1 + r);
    assert Pow2(k) - 1 + r + 1 == Pow2(k) + r;
    Log2Of(k, r);
    TopBit(k, r);
    assert Zeros(k) + ([true] + Binary(r, k)) == Zeros(k) + [true] + Binary(r, k);
  }

  lemma {:induction false} TopBit(k: nat, r: nat)
    requires r < Pow2(k)
    ensures Binary(Pow2(k) + r, k + 1) == [true] + Binary(r, k)
  {
    BinaryOfBit(true);
    BinaryJoin(1, 1, r, k);
    hide Binary, Pow2;
  }

  lemma {:induction false} Log2Of(k: nat, r: nat)
    requires r < Pow2(k)
    ensures Log2(Pow2(k) + r) == k
    decreases k
  {
    if k > 0 {
      Log2Of(k - 1, r / 2);
      assert (Pow2(k) + r) / 2 == Pow2(k - 1) + r / 2;
    }
  }

  /** Numbers 0, 1, 2, 3, 4 stand for 0, 1, -1, 2, -2, and so on. */
  lemma {:induction false} SignsAlternate(k: int)
    requires 0 < k < TWO63
    ensures Unfold(2 * k - 1) == k && Fold(k) == 2 * k - 1
    ensures Unfold(2 * k) == -k && Fold(-k) == 2 * k && Unfold(0) == 0 && Fold(0) == 0
  {}
}
