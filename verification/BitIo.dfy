/** Reading and writing single bits on top of byte streams. */
module BitIo {
  import opened Bytes
  import opened Bits

  // ---------------------------------------------------------------- reader

  /** Division and remainder that truncate toward zero. */
  function TruncDiv(a: int, b: nat): int
    requires b > 0
  {
    if a >= 0 then a / b else -((-a) / b)
  }

  function TruncMod(a: int, b: nat): int
    requires b > 0
  {
    a - b * TruncDiv(a, b)
  }

  lemma {:induction false} TruncIsFloorUnlessNegative(a: int)
    ensures a / 8 == TruncDiv(a, 8) - if TruncMod(a, 8) < 0 then 1 else 0
    ensures a % 8 == (8 + TruncMod(a, 8)) % 8
    ensures TruncMod(a, 8) > -8
  {}

  function Min(a: nat, b: nat): nat { if a <= b then a else b }

  class BitReader {
    const data: bytes
    var dataPos: nat
    var bitPos: nat
    var currentByte: byte

    constructor (data: bytes)
      ensures this.data == data && Valid() && Position() == 0
    {
      this.data, dataPos, bitPos, currentByte := data, 0, 0, 0;
    }

    /** A bit reader on a stream that has been read up to a position. */
    constructor At(data: bytes, pos: nat)
      ensures this.data == data && Valid() && Position() == 8 * pos && dataPos == pos
    {
      this.data, dataPos, bitPos, currentByte := data, pos, 0, 0;
    }

    /** Inside a byte, that byte is the last one taken from the stream, and it is cached. */
    ghost predicate Valid()
      reads this
    {
      bitPos < 8 && (bitPos != 0 ==> 1 <= dataPos <= |data| && currentByte == data[dataPos - 1])
    }

    /** The number of bits read so far. */
    ghost function Position(): nat
      requires Valid()
      reads this
    {
      if bitPos == 0 then 8 * dataPos else 8 * dataPos + bitPos - 8
    }

    ghost function Stream(): bits {
      BitsOf(data)
    }

    predicate IsAligned()
      reads this
    {
      bitPos == 0
    }

    method UpdateByte() returns (ok: bool)
      modifies this
      ensures ok <==> old(dataPos) < |data|
      ensures bitPos == old(bitPos)
      ensures ok ==> dataPos == old(dataPos) + 1 && currentByte == data[old(dataPos)]
      ensures !ok ==> dataPos == old(dataPos) && currentByte == old(currentByte)
    {
      if dataPos >= |data| {
        return false;
      }
      currentByte := data[dataPos];
      dataPos := dataPos + 1;
      return true;
    }

    method ReadBit() returns (r: Option<bool>)
      requires Valid()
      modifies this
      ensures Valid()
      ensures old(Position()) < |Stream()| ==>
                r == Some(Stream()[old(Position())]) && Position() == old(Position()) + 1
      ensures old(Position()) >= |Stream()| ==> r == None && Position() == old(Position())
    {
      ghost var p := Position();
      if IsAligned() {
        var ok := UpdateByte();
        if !ok {
          return None;
        }
      }
      assert p / 8 == dataPos - 1 && p % 8 == bitPos;
      BinaryAt(currentByte, 8, bitPos);
      hide Binary, Shr;
      var bit := Shr(currentByte, 7 - bitPos) % 2;
      bitPos := (bitPos + 1) % 8;
      return Some(bit == 1);
    }

    /** Up to 64 bits as a number. The shifts stay within 64 bits. */
    method ReadBits(count: byte) returns (r: Option<u64>)
      requires Valid()
      modifies this
      ensures Valid()
      ensures var p, n := old(Position()), Min(count, 64);
              if n == 0 then r == Some(0) && Position() == p
              else if p + n <= |Stream()| then r == Some(Value(Stream()[p..p + n])) && Position() == p + n
              else r == None && Position() == if p <= |Stream()| then |Stream()| else p
    {
      hide BitsOf, Value;
      ghost var p, s := Position(), Stream();
      var n := Min(count, 64);
      var v: u64 := 0;
      for i := 0 to n
        invariant Valid() && Position() == p + i
        invariant i > 0 ==> p + i <= |s|
        invariant i > 0 ==> v == Value(s[p..p + i])
        invariant i == 0 ==> v == 0
      {
        var bit := ReadBit();
        if bit.None? {
          return None;
        }
        ValueGrows(s, p, i, 64);
        Pow2Of64();
        v := v * 2 + if bit.value then 1 else 0;
      }
      return Some(v);
    }

    method Align()
      requires Valid()
      modifies this
      ensures Valid() && Position() == (old(Position()) + 7) / 8 * 8
    {
      bitPos := 0;
    }

    /** `read` with a buffer of `n` bytes: aligned, whatever is left of the stream; otherwise all or nothing. */
    method Read(n: nat) returns (r: Option<bytes>)
      requires Valid()
      modifies this
      ensures Valid()
      ensures r.Some? ==>
                && Position() == old(Position()) + 8 * |r.value|
                && (|r.value| > 0 ==> Position() <= |Stream()| && BitsOf(r.value) == Stream()[old(Position())..Position()])
                && |r.value| == if old(IsAligned()) && old(Position()) + 8 * n > |Stream()|
                                then (if old(dataPos) <= |data| then |data| - old(dataPos) else 0) else n
      ensures r.None? <==> !old(IsAligned()) && old(Position()) + 8 * n > |Stream()|
    {
      hide BitsOf;
      if IsAligned() {
        var b := ReadWholeBytes(n);
        return Some(b);
      }
      r := ReadShiftedBytes(n);
    }

    /** The fast path: bytes straight from the stream. */
    method ReadWholeBytes(n: nat) returns (b: bytes)
      requires Valid() && IsAligned()
      modifies this
      ensures Valid() && IsAligned()
      ensures |b| == Min(n, if old(dataPos) <= |data| then |data| - old(dataPos) else 0)
      ensures Position() == old(Position()) + 8 * |b|
      ensures |b| > 0 ==> Position() <= |Stream()| && BitsOf(b) == Stream()[old(Position())..Position()]
    {
      if n == 0 || dataPos >= |data| {
        return [];
      }
      var m := Min(n, |data| - dataPos);
      b := data[dataPos..dataPos + m];
      BitsOfSlice(data, dataPos, dataPos + m);
      dataPos := dataPos + m;
    }

    /** The slow path: every byte is put together from bits of two bytes of the stream. */
    method ReadShiftedBytes(n: nat) returns (r: Option<bytes>)
      requires Valid() && !IsAligned()
      modifies this
      ensures Valid()
      ensures r.Some? <==> old(Position()) + 8 * n <= |Stream()|
      ensures r.Some? ==>
                && |r.value| == n && Position() == old(Position()) + 8 * n
                && BitsOf(r.value) == Stream()[old(Position())..Position()]
    {
      hide BitsOf, Value;
      ghost var p, s := Position(), Stream();
      var b: bytes := [];
      NoBits();
      for i := 0 to n
        invariant Valid() && Position() == p + 8 * i && |b| == i
        invariant p + 8 * i <= |s| && BitsOf(b) == s[p..p + 8 * i]
      {
        var x := ReadByteBits();
        if x.None? {
          return None;
        }
        ByteJoins(b, x.value, s, p, p + 8 * i);
        b := b + [x.value];
      }
      return Some(b);
    }

    /** Eight bits, shifted into a byte one after the other. */
    method ReadByteBits() returns (r: Option<byte>)
      requires Valid()
      modifies this
      ensures Valid()
      ensures var p := old(Position());
              if p + 8 <= |Stream()| then r == Some(Value(Stream()[p..p + 8])) && Position() == p + 8
              else r == None
    {
      hide BitsOf, Value;
      ghost var p, s := Position(), Stream();
      var v: byte := 0;
      for i := 0 to 8
        invariant Valid() && Position() == p + i
        invariant i > 0 ==> p + i <= |s| && v == Value(s[p..p + i])
        invariant i == 0 ==> v == 0
      {
        var bit := ReadBit();
        if bit.None? {
          return None;
        }
        ValueGrows(s, p, i, 8);
        Pow2Of8();
        v := v * 2 + if bit.value then 1 else 0;
      }
      return Some(v);
    }

    /** `read_exact`: as many reads as it takes, or a failure at the end of the stream. */
    method ReadExact(n: nat) returns (r: Option<bytes>)
      requires Valid()
      modifies this
      ensures Valid()
      ensures old(Position()) + 8 * n <= |Stream()| ==>
                && r.Some? && |r.value| == n
                && BitsOf(r.value) == Stream()[old(Position())..old(Position()) + 8 * n]
                && Position() == old(Position()) + 8 * n
      ensures n > 0 && old(Position()) + 8 * n > |Stream()| ==> r == None
    {
      hide BitsOf;
      if n == 0 {
        NoBits();
        return Some([]);
      }
      r := Read(n);
      if r.Some? && |r.value| < n {
        return None;
      }
    }

    /**
     Moves by a number of bits, forward or back. It succeeds exactly when the target is not before
     the stream and, unless it is on a byte boundary, inside it; it then returns the target, and the
     reader stands there. A failed move past the end leaves it there too, inside a byte it does not have:
     the cached one is stale.
     */
    method SeekBits(count: i64) returns (r: Option<nat>)
      requires Valid() && -0x8000_0000_0000_0000 <= bitPos + count < 0x8000_0000_0000_0000
      modifies this
      ensures var target := old(Position()) + count;
              && (r.Some? <==> count == 0 || (target >= 0 && (target % 8 == 0 || target < |Stream()|)))
              && (r.Some? ==> Valid() && r.value == target == Position())
              && (target < 0 ==> Valid() && Position() == old(Position()))
              && (r.None? && target >= 0 ==>
                    dataPos == target / 8 && bitPos == target % 8 != 0 && currentByte == old(currentByte))
    {
      if count == 0 {
        return Some(if IsAligned() then dataPos * 8 + 8 - 8 else dataPos * 8 + bitPos - 8);
      }
      var c: int := bitPos + count;
      var bitMove, byteMove := TruncMod(c, 8), TruncDiv(c, 8);
      TruncIsFloorUnlessNegative(c);
      ghost var target: int := Position() + count;
      if !IsAligned() {
        byteMove := byteMove - 1;
      }
      if bitMove < 0 {
        byteMove := byteMove - 1;
      }
      assert target / 8 == dataPos + byteMove && target % 8 == c % 8;
      if dataPos + byteMove < 0 {
        return None;
      }
      dataPos := dataPos + byteMove;
      var pos := dataPos * 8;
      bitPos := (8 + bitMove) % 8;
      if !IsAligned() {
        var ok := UpdateByte();
        if !ok {
          return None;
        }
        pos := pos + bitPos;
      }
      return Some(pos);
    }
  }

  lemma {:induction false} ValueGrows(s: bits, p: nat, i: nat, limit: nat)
    requires p + i < |s| && i < limit
    ensures Value(s[p..p + i + 1]) == 2 * Value(s[p..p + i]) + if s[p + i] then 1 else 0
    ensures Value(s[p..p + i + 1]) < Pow2(limit)
    ensures i == 0 ==> Value(s[p..p + i]) == 0
  {
    assert s[p..p + i + 1] == s[p..p + i] + [s[p + i]];
    ValueSnoc(s[p..p + i], s[p + i]);
    Pow2Monotone(i + 1, limit);
  }

  lemma {:induction false} ByteJoins(b: bytes, x: byte, s: bits, p: nat, q: nat)
    requires p <= q && q + 8 <= |s| && BitsOf(b) == s[p..q] && x == Value(s[q..q + 8])
    ensures BitsOf(b + [x]) == s[p..q + 8]
  {
    hide BitsOf, Value, Binary;
    BitsOfAppend(b, [x]);
    BitsOfByte(x);
    BinaryOfValue(s[q..q + 8]);
    assert s[p..q] + s[q..q + 8] == s[p..q + 8];
  }

  lemma {:induction false} NoBits()
    ensures BitsOf([]) == []
  {}

  // ---------------------------------------------------------------- writer

  class BitWriter {
    var out: bytes
    var bitPos: nat
    var currentByte: byte
    ghost var partial: bits

    constructor ()
      ensures Valid() && Contents() == [] && out == []
    {
      out, bitPos, currentByte, partial := [], 0, 0, [];
      new;
      NoBits();
      NothingPacked();
    }

    /** The current byte holds the partial bits from the left; the rest of it is zero. */
    ghost predicate Valid()
      reads this
    {
      && bitPos < 8 && |partial| == bitPos
      && currentByte == Packed(partial)
    }

    /** All bits written so far. */
    ghost function Contents(): bits
      reads this
    {
      BitsOf(out) + partial
    }

    predicate IsAligned()
      reads this
    {
      bitPos == 0
    }

    /** The bit at the current place is still zero: setting it adds its weight, clearing it changes nothing. */
    method WriteBit(bit: bool)
      requires Valid()
      modifies this
      ensures Valid() && Contents() == old(Contents()) + [bit]
    {
      hide BitsOf, Packed;
      PackedGrows(partial, bit);
      if bit {
        currentByte := currentByte + Pow2(7 - bitPos);
      }
      bitPos := bitPos + 1;
      partial := partial + [bit];
      assert BitsOf(old(out)) + partial == old(Contents()) + [bit];
      if bitPos == 8 {
        ByteComplete(out, partial, currentByte);
        NothingPacked();
        out := out + [currentByte];
        currentByte := 0;
        bitPos := 0;
        partial := [];
        assert BitsOf(out) + [] == BitsOf(out);
      }
    }

    /** The low `count` bits of a number, at most 64 of them. A number too large for them is rejected. */
    method WriteBits(v: u64, count: byte) returns (ok: bool)
      requires Valid()
      modifies this
      ensures Valid()
      ensures ok <==> v < Pow2(Min(count, 64))
      ensures ok ==> Contents() == old(Contents()) + Binary(v, Min(count, 64))
      ensures !ok ==> out == old(out) && bitPos == old(bitPos) && currentByte == old(currentByte) && Contents() == old(Contents())
    {
      hide Contents, Value, Valid;
      var n := Min(count, 64);
      Pow2Of64();
      if n != 64 && v > Pow2(n) - 1 {
        return false;
      }
      ghost var b := Binary(v, n);
      for i := 0 to n
        invariant Valid()
        invariant Contents() == old(Contents()) + b[..i]
      {
        BinaryAt(v, n, i);
        assert b[..i + 1] == b[..i] + [b[i]];
        WriteBit(Shr(v, n - i - 1) % 2 == 1);
      }
      assert b[..n] == b;
      return true;
    }

    /** Zero bits up to the next byte boundary. */
    method Align()
      requires Valid()
      modifies this
      ensures Valid() && IsAligned()
      ensures Contents() == old(Contents()) + Zeros((8 - old(|Contents()|) % 8) % 8)
      ensures Contents() == BitsOf(out)
    {
      hide BitsOf, Packed, Binary, Zeros;
      assert |Contents()| % 8 == bitPos;
      if !IsAligned() {
        Pow2Monotone(0, 8 - bitPos);
        BinaryOfZero(8 - bitPos);
        hide Pow2;
        var _ := WriteBits(0, 8 - bitPos);
        assert |Contents()| % 8 == 0;
      }
      assert partial == [] && BitsOf(out) + [] == BitsOf(out);
    }

    /** Whole bytes: straight to the output when aligned, bit by bit otherwise; the bits are the same. */
    method Write(buf: bytes)
      requires Valid()
      modifies this
      ensures Valid() && Contents() == old(Contents()) + BitsOf(buf)
    {
      hide BitsOf, Packed, Binary;
      if IsAligned() {
        BitsOfAppend(out, buf);
        out := out + buf;
        return;
      }
      NoBits();
      Pow2Of8();
      hide Pow2, Contents;
      for i := 0 to |buf|
        invariant Valid() && Contents() == old(Contents()) + BitsOf(buf[..i])
      {
        assert buf[..i + 1] == buf[..i] + [buf[i]];
        BitsOfAppend(buf[..i], [buf[i]]);
        BitsOfByte(buf[i]);
        var _ := WriteBits(buf[i], 8);
      }
      assert buf[..|buf|] == buf;
    }
  }

  function Zeros(n: nat): (r: bits)
    ensures |r| == n
  {
    if n == 0 then [] else Zeros(n - 1) + [false]
  }

  lemma {:induction false} BinaryOfZero(n: nat)
    ensures Binary(0, n) == Zeros(n)
  {
    if n > 0 {
      BinaryOfZero(n - 1);
    }
  }

  /** A few bits at the left of a byte, zeros to their right. */
  ghost function Packed(p: bits): nat
    requires |p| <= 8
  {
    Value(p) * Pow2(8 - |p|)
  }

  lemma {:induction false} NothingPacked()
    ensures Packed([]) == 0
  {}

  lemma {:induction false} PackedGrows(p: bits, bit: bool)
    requires |p| < 8
    ensures Packed(p + [bit]) == Packed(p) + if bit then Pow2(7 - |p|) else 0
    ensures Packed(p + [bit]) < 256
  {
    hide Pow2, Value;
    ValueSnoc(p, bit);
    Weights(|p|);
    AddBit(Value(p), Pow2(7 - |p|), if bit then 1 else 0);
    Product(Value(p + [bit]), Pow2(|p| + 1), Pow2(7 - |p|));
  }

  lemma {:induction false} Weights(k: nat)
    requires k < 8
    ensures Pow2(8 - k) == 2 * Pow2(7 - k) && Pow2(k + 1) * Pow2(7 - k) == 256
  {
    Pow2Add(k + 1, 7 - k);
    Pow2Of8();
  }

  lemma {:induction false} AddBit(v: nat, q: nat, b: nat)
    ensures (2 * v + b) * q == v * (2 * q) + b * q
  {}

  lemma {:induction false} Product(v: nat, a: nat, q: nat)
    requires v < a && q >= 1
    ensures v * q < a * q
  {}

  lemma {:induction false} ByteComplete(out: bytes, p: bits, b: byte)
    requires |p| == 8 && b == Packed(p)
    ensures BitsOf(out + [b]) == BitsOf(out) + p
  {
    BitsOfAppend(out, [b]);
    BitsOfByte(b);
    BinaryOfValue(p);
  }

  // ---------------------------------------------------------------- round trip

  /** One thing to write, and then to read back in the same shape. */
  datatype Item = OneBit(bit: bool) | Number(value: u64, count: byte) | Raw(data: bytes) | Alignment

  predicate Fits(x: Item) {
    x.Number? ==> x.value < Pow2(Min(x.count, 64))
  }

  predicate AllFit(items: seq<Item>) {
    forall i :: 0 <= i < |items| ==> Fits(items[i])
  }

  function Padding(at: nat): nat { (8 - at % 8) % 8 }

  /** The bits of one item written after `at` bits. */
  function ItemBits(x: Item, at: nat): bits {
    match x
    case OneBit(b) => [b]
    case Number(v, n) => Binary(v, Min(n, 64))
    case Raw(data) => BitsOf(data)
    case Alignment => Zeros(Padding(at))
  }

  function ItemsBits(items: seq<Item>, at: nat): bits {
    if items == [] then []
    else ItemBits(items[0], at) + ItemsBits(items[1..], at + |ItemBits(items[0], at)|)
  }

  lemma {:induction false} ItemsBitsSnoc(items: seq<Item>, x: Item, at: nat)
    ensures var done := ItemsBits(items, at);
            ItemsBits(items + [x], at) == done + ItemBits(x, at + |done|)
  {
    hide ItemBits;
    if items == [] {
      assert items + [x] == [x] && [x][1..] == [];
    } else {
      assert (items + [x])[1..] == items[1..] + [x];
      ItemsBitsSnoc(items[1..], x, at + |ItemBits(items[0], at)|);
    }
  }

  method WriteItem(w: BitWriter, x: Item)
    requires w.Valid() && Fits(x)
    modifies w
    ensures w.Valid() && w.Contents() == old(w.Contents()) + ItemBits(x, old(|w.Contents()|))
  {
    hide BitsOf, Binary, Zeros, Pow2, BitWriter.Contents, BitWriter.Valid;
    match x {
      case OneBit(b) => w.WriteBit(b);
      case Number(v, n) => var _ := w.WriteBits(v, n);
      case Raw(data) => w.Write(data);
      case Alignment => w.Align();
    }
  }

  /** Writes every item; the output is their bits, padded to a whole byte. */
  method WriteItems(items: seq<Item>) returns (out: bytes)
    requires AllFit(items)
    ensures ItemsBits(items, 0) <= BitsOf(out)
  {
    hide BitsOf, ItemBits, Fits, BitWriter.Contents, BitWriter.Valid, Zeros;
    NoItems();
    var w := new BitWriter();
    for i := 0 to |items|
      invariant fresh(w) && w.Valid() && w.Contents() == ItemsBits(items[..i], 0)
    {
      ItemsBitsSnoc(items[..i], items[i], 0);
      assert items[..i + 1] == items[..i] + [items[i]];
      WriteItem(w, items[i]);
    }
    assert items[..|items|] == items;
    w.Align();
    out := w.out;
  }

  /** The bits still to come after the first `i` items. */
  lemma {:induction false} ItemsBitsDrop(items: seq<Item>, i: nat, s: bits)
    requires i < |items| && ItemsBits(items, 0) <= s
    ensures var p, q := |ItemsBits(items[..i], 0)|, |ItemsBits(items[..i + 1], 0)|;
            && p <= q <= |s| && q - p == |ItemBits(items[i], p)|
            && s[p..q] == ItemBits(items[i], p)
  {
    hide ItemBits;
    ItemsBitsSnoc(items[..i], items[i], 0);
    assert items[..i + 1] == items[..i] + [items[i]];
    ItemsBitsPrefix(items, i + 1);
  }

  lemma {:induction false} ItemsBitsPrefix(items: seq<Item>, i: nat)
    requires i <= |items|
    ensures ItemsBits(items[..i], 0) <= ItemsBits(items, 0)
    decreases |items| - i
  {
    hide ItemBits;
    if i < |items| {
      ItemsBitsPrefix(items, i + 1);
      ItemsBitsSnoc(items[..i], items[i], 0);
      assert items[..i + 1] == items[..i] + [items[i]];
    } else {
      assert items[..i] == items;
    }
  }

  /** Reads one item, given its shape only: its kind and its width. */
  method ReadItem(r: BitReader, x: Item) returns (y: Item)
    requires r.Valid() && Fits(x)
    requires var p := r.Position();
             p + |ItemBits(x, p)| <= |r.Stream()| && r.Stream()[p..p + |ItemBits(x, p)|] == ItemBits(x, p)
    modifies r
    ensures r.Valid() && y == x && r.Position() == old(r.Position()) + |ItemBits(x, old(r.Position()))|
  {
    hide BitsOf, Binary, Zeros, Value, Pow2, BitReader.Valid, BitReader.Position, BitReader.Stream;
    match x {
      case OneBit(_) =>
        ghost var p, s := r.Position(), r.Stream();
        assert s[p..p + 1] == [s[p]];
        var bit := r.ReadBit();
        return OneBit(bit.value);
      case Number(v, n) =>
        var number := ReadNumber(r, v, n);
        return Number(number, n);
      case Raw(data) =>
        var b := ReadRaw(r, data);
        return Raw(b);
      case Alignment =>
        r.Align();
        return Alignment;
    }
  }

  method ReadNumber(r: BitReader, ghost v: u64, n: byte) returns (number: u64)
    requires r.Valid() && v < Pow2(Min(n, 64)) && r.Position() + Min(n, 64) <= |r.Stream()|
    requires r.Stream()[r.Position()..r.Position() + Min(n, 64)] == Binary(v, Min(n, 64))
    modifies r
    ensures r.Valid() && number == v && r.Position() == old(r.Position()) + Min(n, 64)
  {
    hide Binary, Value, Pow2, BitReader.Valid, BitReader.Position, BitReader.Stream;
    ValueOfBinary(v, Min(n, 64));
    NoBinary();
    var x := r.ReadBits(n);
    number := x.value;
  }

  method ReadRaw(r: BitReader, data: bytes) returns (b: bytes)
    requires r.Valid() && r.Position() + 8 * |data| <= |r.Stream()|
    requires r.Stream()[r.Position()..r.Position() + 8 * |data|] == BitsOf(data)
    modifies r
    ensures r.Valid() && b == data && r.Position() == old(r.Position()) + 8 * |data|
  {
    hide BitsOf, BitReader.Valid, BitReader.Position, BitReader.Stream;
    var x := r.ReadExact(|data|);
    BitsOfInjective(data, x.value);
    b := x.value;
  }

  /** Whatever is written, in whatever order and at whatever alignment, reads back as it was. */
  method BitRoundTrip(items: seq<Item>) returns (back: seq<Item>)
    requires AllFit(items)
    ensures back == items
  {
    hide BitsOf, ItemsBits, ItemBits, Fits;
    var out := WriteItems(items);
    var r := new BitReader(out);
    back := [];
    NoItems();
    for i := 0 to |items|
      invariant fresh(r) && r.Valid() && r.data == out
      invariant back == items[..i] && r.Position() == |ItemsBits(items[..i], 0)|
    {
      ItemsBitsDrop(items, i, r.Stream());
      var y := ReadItem(r, items[i]);
      back := back + [y];
    }
  }

  lemma {:induction false} NoItems()
    ensures ItemsBits([], 0) == []
  {}

  lemma {:induction false} NoBinary()
    ensures Pow2(0) == 1
  {}

  lemma {:induction false} BitsOfInjective(a: bytes, b: bytes)
    requires BitsOf(a) == BitsOf(b)
    ensures a == b
  {
    hide Binary;
    assert 8 * |a| == 8 * |b|;
    forall i | 0 <= i < |a| ensures a[i] == b[i] {
      BitsOfSlice(a, i, i + 1);
      BitsOfSlice(b, i, i + 1);
      assert a[i..i + 1] == [a[i]] && b[i..i + 1] == [b[i]];
      BitsOfByte(a[i]);
      BitsOfByte(b[i]);
      Pow2Of8();
      ValueOfBinary(a[i], 8);
      ValueOfBinary(b[i], 8);
    }
  }
}
