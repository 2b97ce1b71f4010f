/** Little-endian base-128 numbers, section 4.10.5 of the AV1 specification, and the cursor they are read from. */
module Leb128 {
  import opened Bytes

  const MAX32: nat := 0xFFFF_FFFF

  // ---------------------------------------------------------------- cursor

  /** A position in a byte string. A byte string in memory is shorter than 2^63. */
  class Cursor {
    const data: bytes
    var pos: nat

    constructor (data: bytes)
      requires |data| < 0x8000_0000_0000_0000
      ensures this.data == data && pos == 0 && Valid()
    {
      this.data, pos := data, 0;
    }

    ghost predicate Valid()
      reads this
    {
      pos <= |data| < 0x8000_0000_0000_0000
    }

    method ReadByte() returns (b: Option<byte>)
      requires Valid()
      modifies this
      ensures Valid()
      ensures old(pos) < |data| ==> b == Some(data[old(pos)]) && pos == old(pos) + 1
      ensures old(pos) == |data| ==> b == None && pos == old(pos)
    {
      if pos == |data| {
        return None;
      }
      b := Some(data[pos]);
      pos := pos + 1;
    }

    method ExtractBytes(n: nat) returns (r: Option<bytes>)
      requires Valid()
      modifies this
      ensures Valid()
      ensures old(pos) + n <= |data| ==> r == Some(data[old(pos)..old(pos) + n]) && pos == old(pos) + n
      ensures old(pos) + n > |data| ==> r == None && pos == old(pos)
    {
      if n == 0 {
        assert data[pos..pos] == [];
        return Some([]);
      }
      if n > |data| - pos {
        return None;
      }
      r := Some(data[pos..pos + n]);
      pos := pos + n;
    }
  }

  /** Where a byte string is collected. */
  class Output {
    var out: bytes

    constructor ()
      ensures out == []
    {
      out := [];
    }

    method WriteAll(b: bytes)
      modifies this
      ensures out == old(out) + b
    {
      out := out + b;
    }
  }

  // ---------------------------------------------------------------- writing

  /** Seven bits a byte, low ones first; every byte but the last has its top bit set. */
  function Leb(v: nat): (r: bytes)
    ensures |r| >= 1
  {
    if v < 128 then [v] else [v % 128 + 128] + Leb(v / 128)
  }

  method WriteLeb128(w: Output, v: nat) returns (written: nat)
    modifies w
    ensures w.out == old(w.out) + Leb(v) && written == |Leb(v)|
  {
    hide Leb;
    var value, more := v, true;
    written := 0;
    ghost var done: bytes := [];
    while more
      invariant w.out == old(w.out) + done && written == |done|
      invariant if more then done + Leb(value) == Leb(v) else done == Leb(v)
      decreases more, value
    {
      LebStep(value);
      var b: byte := value % 128;
      value := value / 128;
      if value != 0 {
        b := b + 128;
      }
      w.WriteAll([b]);
      done := done + [b];
      written := written + 1;
      more := value != 0;
    }
  }

  lemma {:induction false} LebStep(v: nat)
    ensures Leb(v) == if v / 128 == 0 then [v % 128] else [v % 128 + 128] + Leb(v / 128)
  {}

  method Leb128Size(v: nat) returns (size: nat)
    ensures size == |Leb(v)|
  {
    var value := v;
    size := 1;
    while value >= 128
      invariant size - 1 + |Leb(value)| == |Leb(v)|
    {
      value := value / 128;
      size := size + 1;
    }
  }

  // ---------------------------------------------------------------- reading

  datatype Number = Number(value: nat, next: nat)

  /** At most `left` bytes from a position. */
  function Digits(data: bytes, p: nat, left: nat): (r: Option<Number>)
    ensures r.Some? ==> p <= r.value.next && (left > 0 ==> p < r.value.next <= |data|)
    decreases left
  {
    if left == 0 then Some(Number(0, p))
    else if p >= |data| then None
    else if data[p] < 128 then Some(Number(data[p], p + 1))
    else
      var rest := Digits(data, p + 1, left - 1);
      if rest.None? then None else Some(Number(data[p] - 128 + 128 * rest.value.value, rest.value.next))
  }

  /** A number at a position: at most eight bytes, and at most 32 bits. */
  function Leb128At(data: bytes, p: nat): (r: Option<Number>)
    ensures r.Some? ==> p < r.value.next <= |data| && r.value.value <= MAX32
  {
    var r := Digits(data, p, 8);
    if r.Some? && r.value.value <= MAX32 then r else None
  }

  function Pow128(n: nat): (r: nat)
    ensures r >= 1
  {
    if n == 0 then 1 else 128 * Pow128(n - 1)
  }

  method ReadLeb128FromCursor(c: Cursor) returns (r: Option<nat>)
    requires c.Valid()
    modifies c
    ensures c.Valid()
    ensures var e := Leb128At(c.data, old(c.pos));
            if e.None? then r == None else r == Some(e.value.value) && c.pos == e.value.next
  {
    hide Digits, Shifted, Pow128;
    ghost var start := c.pos;
    ShiftedStart(Digits(c.data, start, 8));
    var result: nat := 0;
    for i := 0 to 8
      invariant c.Valid() && start <= c.pos
      invariant Digits(c.data, start, 8) == Shifted(Digits(c.data, c.pos, 8 - i), result, i)
    {
      ShiftedStops(c.data, c.pos, 8 - i, result, i);
      var b := c.ReadByte();
      if b.None? {
        return None;
      }
      ShiftedStep(c.data, c.pos - 1, 8 - i, result, i);
      result := result + b.value % 128 * Pow128(i);
      if b.value < 128 {
        if result > MAX32 {
          return None;
        }
        return Some(result);
      }
    }
    ShiftedStops(c.data, c.pos, 0, result, 8);
    if result > MAX32 {
      return None;
    }
    return Some(result);
  }

  /** Digits that come after `i` others which make up `low`. */
  ghost function Shifted(r: Option<Number>, low: nat, i: nat): Option<Number> {
    if r.None? then None else Some(Number(low + Pow128(i) * r.value.value, r.value.next))
  }

  lemma {:induction false} ShiftedStart(r: Option<Number>)
    ensures Shifted(r, 0, 0) == r
  {}

  lemma {:induction false} ShiftedStops(data: bytes, p: nat, left: nat, low: nat, i: nat)
    ensures left == 0 ==> Shifted(Digits(data, p, left), low, i) == Some(Number(low, p))
    ensures left > 0 && p >= |data| ==> Shifted(Digits(data, p, left), low, i) == None
  {}

  lemma {:induction false} ShiftedStep(data: bytes, p: nat, left: nat, low: nat, i: nat)
    requires left > 0 && p < |data|
    ensures var low' := low + data[p] % 128 * Pow128(i);
            Shifted(Digits(data, p, left), low, i) ==
            if data[p] < 128 then Some(Number(low', p + 1))
            else Shifted(Digits(data, p + 1, left - 1), low', i + 1)
  {
    var b := data[p];
    assert Pow128(i + 1) == 128 * Pow128(i);
    hide Pow128;
    if b >= 128 && Digits(data, p + 1, left - 1).Some? {
      var v := Digits(data, p + 1, left - 1).value.value;
      Distribute(Pow128(i), b - 128, v);
    }
  }

  lemma {:induction false} Distribute(m: nat, a: nat, v: nat)
    ensures m * (a + 128 * v) == a * m + (128 * m) * v
  {}

  // ---------------------------------------------------------------- round trip

  /** A reader that takes at most `left` bytes keeps the number modulo 128^left. */
  lemma {:induction false} DigitsOfLeb(before: bytes, v: nat, after: bytes, left: nat)
    ensures var s := before + Leb(v) + after;
            Digits(s, |before|, left) ==
            Some(Number(v % Pow128(left), |before| + if |Leb(v)| <= left then |Leb(v)| else left))
    decreases left
  {
    var s := before + Leb(v) + after;
    if left == 0 {
      hide Leb;
      assert v % 1 == 0;
    } else if v < 128 {
      assert s[|before|] == v;
      hide Leb, Digits;
      SmallMod(v, left);
    } else {
      var b: byte := v % 128 + 128;
      assert before + Leb(v) + after == (before + [b]) + Leb(v / 128) + after;
      assert s[|before|] == b;
      DigitsOfLeb(before + [b], v / 128, after, left - 1);
      SplitMod(v, Pow128(left - 1));
    }
  }

  lemma {:induction false} SmallMod(v: nat, left: nat)
    requires v < 128 && left > 0
    ensures v % Pow128(left) == v
  {
    assert Pow128(left) >= 128;
  }

  lemma {:induction false} SplitMod(v: nat, m: nat)
    requires m > 0
    ensures v % (128 * m) == v % 128 + 128 * (v / 128 % m)
  {
    var q, r := v / 128 / m, v / 128 % m;
    assert v / 128 == q * m + r;
    assert v == q * (128 * m) + (v % 128 + 128 * r);
    DivModUnique(v, 128 * m, q, v % 128 + 128 * r);
  }

  lemma {:induction false} Width(v: nat, n: nat)
    requires n > 0
    ensures v < Pow128(n) <==> |Leb(v)| <= n
    decreases n
  {
    if n > 1 {
      if v >= 128 {
        Width(v / 128, n - 1);
        assert v < 128 * Pow128(n - 1) <==> v / 128 < Pow128(n - 1);
      }
    } else {
      assert Pow128(1) == 128 * Pow128(0);
    }
  }

  lemma {:induction false} Pow128Of8()
    ensures Pow128(5) == 0x8_0000_0000 && Pow128(8) == 0x100_0000_0000_0000
  {
    assert Pow128(2) == 16384 && Pow128(4) == 16384 * 16384;
    assert Pow128(6) == 16384 * 16384 * 16384 && Pow128(8) == 16384 * 16384 * 16384 * 16384;
  }

  /** Between any other bytes, a written number reads back, all of it and nothing more, exactly when it has 32 bits. */
  lemma {:induction false} LebRoundTripExactlyWhen(before: bytes, v: nat, after: bytes)
    ensures Leb128At(before + Leb(v) + after, |before|) == Some(Number(v, |before| + |Leb(v)|)) <==> v <= MAX32
    ensures v < Pow128(8) && v > MAX32 ==> Leb128At(before + Leb(v) + after, |before|) == None
  {
    DigitsOfLeb(before, v, after, 8);
    Width(v, 8);
    Pow128Of8();
    hide Digits, Leb, Pow128;
    if v < Pow128(8) {
      assert v % Pow128(8) == v;
    }
  }

  /** The reader stops after eight bytes even when the eighth announces more: 2^56 reads as zero. */
  lemma {:induction false} LongNumberIsTruncated()
    ensures Leb128At(Leb(0x100_0000_0000_0000), 0) == Some(Number(0, 8))
  {
    var v := 0x100_0000_0000_0000;
    hide Digits, Leb, Pow128;
    DigitsOfLeb([], v, [], 8);
    Width(v, 8);
    Pow128Of8();
    assert [] + Leb(v) + [] == Leb(v);
  }

  // ---------------------------------------------------------------- any spelling

  /** The digit at index `i` counts 128^i. */
  function Total(s: bytes): nat {
    if s == [] then 0 else Total(s[..|s| - 1]) + s[|s| - 1] % 128 * Pow128(|s| - 1)
  }

  /** Every byte but the last announces another; the last one does not, unless it is the last one allowed. */
  predicate Spelled(s: bytes, most: nat) {
    && 0 < |s| <= most
    && (forall i :: 0 <= i < |s| - 1 ==> s[i] >= 128)
    && (|s| < most ==> s[|s| - 1] < 128)
  }

  lemma {:induction false} TotalFromFront(s: bytes)
    requires s != []
    ensures Total(s) == s[0] % 128 + 128 * Total(s[1..])
  {
    var n := |s| - 1;
    if n == 0 {
      assert s[..0] == [] && s[1..] == [];
      assert Total(s) == Total([]) + s[0] % 128 * Pow128(0);
    } else {
      TotalFromFront(s[..n]);
      assert s[..n][1..] == s[1..][..n - 1];
      Shift(s[n] % 128, Pow128(n - 1));
      assert Total(s[1..]) == Total(s[1..][..n - 1]) + s[n] % 128 * Pow128(n - 1);
    }
  }

  lemma {:induction false} Shift(d: nat, m: nat)
    ensures d * (128 * m) == 128 * (d * m)
  {}

  lemma {:induction false} DigitsAreSpelled(data: bytes, p: nat, left: nat)
    requires left > 0 && Digits(data, p, left).Some?
    ensures var x := Digits(data, p, left).value;
            p < x.next <= |data| && Spelled(data[p..x.next], left) && x.value == Total(data[p..x.next])
    decreases left
  {
    hide Total;
    var next := Digits(data, p, left).value.next;
    var s := data[p..next];
    TotalFromFront(s);
    assert s[1..] == data[p + 1..next];
    if data[p] >= 128 && left > 1 {
      DigitsAreSpelled(data, p + 1, left - 1);
      assert forall i :: 1 <= i < |s| ==> s[i] == s[1..][i - 1];
    } else {
      assert data[p] >= 128 ==> Digits(data, p + 1, 0) == Some(Number(0, p + 1));
      TotalOfOne(s);
    }
  }

  lemma {:induction false} TotalOfOne(s: bytes)
    requires |s| == 1
    ensures Total(s) == s[0] % 128
  {
    assert s[..0] == [];
    assert Total(s) == Total([]) + s[0] % 128 * Pow128(0);
  }

  lemma {:induction false} SpellingIsRead(data: bytes, p: nat, left: nat, next: nat)
    requires p < next <= |data| && Spelled(data[p..next], left)
    ensures Digits(data, p, left) == Some(Number(Total(data[p..next]), next))
    decreases left
  {
    hide Total;
    var s := data[p..next];
    TotalFromFront(s);
    assert s[1..] == data[p + 1..next];
    assert s[0] == data[p];
    if |s| > 1 {
      assert forall i :: 1 <= i < |s| ==> s[i] == s[1..][i - 1];
      SpellingIsRead(data, p + 1, left - 1, next);
    } else {
      assert data[p] >= 128 ==> Digits(data, p + 1, 0) == Some(Number(0, p + 1));
      TotalOfOne(s);
    }
  }

  /** The reader takes exactly the numbers of 32 bits spelled in up to eight bytes, padded ones included. */
  lemma {:induction false} ReadsExactlyWhen(data: bytes, p: nat, x: Number)
    ensures Leb128At(data, p) == Some(x) <==>
            && p < x.next <= |data| && Spelled(data[p..x.next], 8)
            && x.value == Total(data[p..x.next]) && x.value <= 0xFFFF_FFFF
  {
    hide Digits, Spelled, Total;
    if Digits(data, p, 8).Some? {
      DigitsAreSpelled(data, p, 8);
    }
    if p < x.next <= |data| && Spelled(data[p..x.next], 8) {
      SpellingIsRead(data, p, 8, x.next);
    }
  }
}
