/** Open bitstream unit headers: sections 5.3.2, 5.3.3 and 6.2.2 of the AV1 specification. */
module Av1Obu {
  import opened Bytes
  import opened Bits
  import opened BitIo
  import opened BitFields
  import opened Leb128

  datatype ObuType =
    | SequenceHeader | TemporalDelimiter | FrameHeader | TileGroup | Metadata
    | Frame | RedundantFrameHeader | TileList | Padding | Reserved(value: byte)

  function TypeOf(code: byte): ObuType {
    match code
    case 1 => SequenceHeader
    case 2 => TemporalDelimiter
    case 3 => FrameHeader
    case 4 => TileGroup
    case 5 => Metadata
    case 6 => Frame
    case 7 => RedundantFrameHeader
    case 8 => TileList
    case 15 => Padding
    case _ => Reserved(code)
  }

  function CodeOf(t: ObuType): byte {
    match t
    case SequenceHeader => 1
    case TemporalDelimiter => 2
    case FrameHeader => 3
    case TileGroup => 4
    case Metadata => 5
    case Frame => 6
    case RedundantFrameHeader => 7
    case TileList => 8
    case Padding => 15
    case Reserved(value) => value
  }

  /** Not a named type in the guise of a reserved one. */
  predicate Canonical(t: ObuType) { TypeOf(CodeOf(t)) == t }

  datatype Extension = Extension(temporalId: byte, spatialId: byte)

  datatype ObuHeader = ObuHeader(obuType: ObuType, size: Option<nat>, extension: Option<Extension>)

  datatype Obu = Obu(header: ObuHeader, data: bytes)

  // ---------------------------------------------------------------- reading

  datatype FirstByte = FirstByte(code: byte, extended: bool, sized: bool)

  function ParseFirst(b: byte): Option<FirstByte> {
    if b >= 128 || b % 2 == 1 then None else Some(FirstByte(b / 8 % 16, b / 4 % 2 == 1, b / 2 % 2 == 1))
  }

  function ParseExtension(b: byte): Option<Extension> {
    if b % 8 != 0 then None else Some(Extension(b / 32, b / 8 % 4))
  }

  datatype ParsedHeader = ParsedHeader(header: ObuHeader, next: nat)

  /** The header at a position. */
  function HeaderAt(data: bytes, p: nat): (r: Option<ParsedHeader>)
    ensures r.Some? ==> p < r.value.next <= |data|
  {
    if p >= |data| then None
    else
      var f := ParseFirst(data[p]);
      if f.None? then None
      else if !f.value.extended then SizeAt(data, p + 1, f.value, None)
      else if p + 1 >= |data| then None
      else
        var e := ParseExtension(data[p + 1]);
        if e.None? then None else SizeAt(data, p + 2, f.value, e)
  }

  function SizeAt(data: bytes, p: nat, f: FirstByte, e: Option<Extension>): (r: Option<ParsedHeader>)
    requires p <= |data|
    ensures r.Some? ==> p <= r.value.next <= |data|
  {
    if !f.sized then Some(ParsedHeader(ObuHeader(TypeOf(f.code), None, e), p))
    else
      var n := Leb128At(data, p);
      if n.None? then None
      else Some(ParsedHeader(ObuHeader(TypeOf(f.code), Some(n.value.value), e), n.value.next))
  }

  method ReadFirst(r: BitReader, ghost p: nat) returns (f: Option<FirstByte>)
    requires AtByte(r, p)
    modifies r
    ensures if p < |r.data| && ParseFirst(r.data[p]).Some?
            then f == ParseFirst(r.data[p]) && AtByte(r, p + 1) else f == None && Inside(r)
  {
    hide Value, BitsOf, Pow2, BitReader.Valid, BitReader.Position;
    if p < |r.data| {
      FirstFields(r.data, p);
    }
    var forbidden := r.ReadBit();
    if forbidden != Some(false) {
      return None;
    }
    var code := r.ReadBits(4);
    var extended := r.ReadBit();
    var sized := r.ReadBit();
    var reserved := r.ReadBit();
    if reserved.value {
      return None;
    }
    return Some(FirstByte(code.value, extended.value, sized.value));
  }

  lemma {:induction false} FirstFields(data: bytes, p: nat)
    requires p < |data|
    ensures var s, b := BitsOf(data), data[p];
            && |s| >= 8 * p + 8
            && s[8 * p] == (b >= 128)
            && Value(s[8 * p + 1..8 * p + 5]) == b / 8 % 16
            && s[8 * p + 5] == (b / 4 % 2 == 1)
            && s[8 * p + 6] == (b / 2 % 2 == 1)
            && s[8 * p + 7] == (b % 2 == 1)
  {
    hide Value, BitsOf, Pow2;
    Pow2Of8();
    Pow2Step(0);
    FieldBit(data, p, 0);
    Field(data, p, 1, 5);
    FieldBit(data, p, 5);
    FieldBit(data, p, 6);
    FieldBit(data, p, 7);
  }

  method ReadExtension(r: BitReader, ghost p: nat) returns (e: Option<Extension>)
    requires AtByte(r, p)
    modifies r
    ensures if p < |r.data| && ParseExtension(r.data[p]).Some?
            then e == ParseExtension(r.data[p]) && AtByte(r, p + 1) else e == None && Inside(r)
  {
    hide Value, BitsOf, Pow2, BitReader.Valid, BitReader.Position;
    if p < |r.data| {
      ExtensionFields(r.data, p);
    }
    var temporalId := r.ReadBits(3);
    if temporalId.None? {
      return None;
    }
    var spatialId := r.ReadBits(2);
    var reserved := r.ReadBits(3);
    if reserved.value != 0 {
      return None;
    }
    return Some(Extension(temporalId.value, spatialId.value));
  }

  lemma {:induction false} ExtensionFields(data: bytes, p: nat)
    requires p < |data|
    ensures var s, b := BitsOf(data), data[p];
            && |s| >= 8 * p + 8
            && Value(s[8 * p..8 * p + 3]) == b / 32
            && Value(s[8 * p + 3..8 * p + 5]) == b / 8 % 4
            && Value(s[8 * p + 5..8 * p + 8]) == b % 8
  {
    hide Value, BitsOf, Pow2;
    Pow2Of8();
    Pow2Step(0);
    Field(data, p, 0, 3);
    Field(data, p, 3, 5);
    Field(data, p, 5, 8);
  }

  /** The same number as the cursor reads, taken eight bits at a time. */
  method ReadLeb128(r: BitReader, ghost p: nat) returns (n: Option<nat>)
    requires AtByte(r, p)
    modifies r
    ensures var e := Leb128At(r.data, p);
            if e.None? then n == None && Inside(r) else n == Some(e.value.value) && AtByte(r, e.value.next)
  {
    hide AtByte, Inside, Digits, Shifted, Pow128, BitReader.Valid, BitReader.Position;
    ShiftedStart(Digits(r.data, p, 8));
    var result: nat := 0;
    ghost var q := p;
    var i, more := 0, true;
    while i < 8 && more
      invariant i <= 8 && AtByte(r, q)
      invariant Digits(r.data, p, 8) ==
                if more then Shifted(Digits(r.data, q, 8 - i), result, i) else Some(Leb128.Number(result, q))
    {
      ShiftedStops(r.data, q, 8 - i, result, i);
      var b := ReadByteOf(r, q);
      if b.None? {
        return None;
      }
      ShiftedStep(r.data, q, 8 - i, result, i);
      result := result + b.value % 128 * Pow128(i);
      more := b.value >= 128;
      q := q + 1;
      i := i + 1;
    }
    ShiftedStops(r.data, q, 0, result, 8);
    AtByteIs(r, q);
    if result > MAX32 {
      return None;
    }
    return Some(result);
  }

  method ReadHeader(r: BitReader, ghost p: nat) returns (h: Option<ObuHeader>)
    requires AtByte(r, p)
    modifies r
    ensures var e := HeaderAt(r.data, p);
            if e.None? then h == None && Inside(r) else h == Some(e.value.header) && AtByte(r, e.value.next)
  {
    hide AtByte, Inside, ParseFirst, ParseExtension, BitReader.Valid, BitReader.Position, Leb128At, TypeOf;
    var f := ReadFirst(r, p);
    if f.None? {
      return None;
    }
    ghost var q := p + 1;
    var e: Option<Extension> := None;
    if f.value.extended {
      e := ReadExtension(r, q);
      if e.None? {
        return None;
      }
      q := q + 1;
    }
    var size: Option<nat> := None;
    if f.value.sized {
      size := ReadLeb128(r, q);
      if size.None? {
        return None;
      }
      q := Leb128At(r.data, q).value.next;
    }
    AtByteIs(r, q);
    return if r.IsAligned() then Some(ObuHeader(TypeOf(f.value.code), size, e)) else None;
  }

  /** Reads a header through a bit reader on the cursor. */
  method ParseObuHeader(c: Cursor) returns (h: Option<ObuHeader>)
    requires c.Valid()
    modifies c
    ensures c.Valid()
    ensures var e := HeaderAt(c.data, old(c.pos));
            if e.None? then h == None else h == Some(e.value.header) && c.pos == e.value.next
  {
    ghost var p := c.pos;
    var r := new BitReader.At(c.data, c.pos);
    hide HeaderAt, BitReader.Valid, BitReader.Position;
    h := ReadHeader(r, p);
    hide AtByte, Inside;
    AtByteIs(r, if h.Some? then HeaderAt(c.data, p).value.next else 0);
    c.pos := r.dataPos;
  }

  // ---------------------------------------------------------------- writing

  predicate ExtensionFits(e: Extension) { e.temporalId < 8 && e.spatialId < 4 }

  /** The fields fit their bits. */
  predicate Fits(h: ObuHeader) {
    CodeOf(h.obuType) < 16 && (h.extension.Some? ==> ExtensionFits(h.extension.value))
  }

  function First(h: ObuHeader): byte
    requires Fits(h)
  {
    CodeOf(h.obuType) * 8 + (if h.extension.Some? then 4 else 0) + if h.size.Some? then 2 else 0
  }

  function ExtensionBytes(e: Option<Extension>): bytes
    requires e.Some? ==> ExtensionFits(e.value)
  {
    if e.None? then [] else [e.value.temporalId * 32 + e.value.spatialId * 8]
  }

  function HeaderBytes(h: ObuHeader): bytes
    requires Fits(h)
  {
    [First(h)] + ExtensionBytes(h.extension) + if h.size.None? then [] else Leb(h.size.value)
  }

  method Mux(h: ObuHeader, w: Output) returns (written: Option<nat>)
    modifies w
    ensures written.Some? <==> Fits(h)
    ensures Fits(h) ==> w.out == old(w.out) + HeaderBytes(h) && written == Some(|HeaderBytes(h)|)
  {
    hide Leb;
    var bits := MuxBits(h);
    if bits.None? {
      return None;
    }
    w.WriteAll(bits.value);
    var n := if h.extension.Some? then 2 else 1;
    if h.size.Some? {
      var m := WriteLeb128(w, h.size.value);
      n := n + m;
    }
    return Some(n);
  }

  /** The fixed part, bit by bit. */
  method MuxBits(h: ObuHeader) returns (r: Option<bytes>)
    ensures if Fits(h) then r == Some([First(h)] + ExtensionBytes(h.extension)) else r == None
  {
    hide BitsOf, CodeOf, Binary, BitWriter.Valid, BitWriter.Contents;
    var w := new BitWriter();
    var ok := MuxFirst(w, CodeOf(h.obuType), h.extension.Some?, h.size.Some?);
    if !ok {
      return None;
    }
    ghost var f: byte :=
      CodeOf(h.obuType) * 8 + (if h.extension.Some? then 4 else 0) + if h.size.Some? then 2 else 0;
    if h.extension.Some? {
      ok := MuxExtension(w, h.extension.value);
      if !ok {
        return None;
      }
      BitsOfAppend([f], ExtensionBytes(h.extension));
    } else {
      assert [f] + [] == [f];
    }
    r := Finish(w, [f] + ExtensionBytes(h.extension));
  }

  method MuxFirst(w: BitWriter, code: byte, extended: bool, sized: bool) returns (ok: bool)
    requires w.Valid() && w.Contents() == []
    modifies w
    ensures w.Valid() && (ok <==> code < 16)
    ensures ok ==> w.Contents() == BitsOf([code * 8 + (if extended then 4 else 0) + if sized then 2 else 0])
  {
    hide BitsOf, Binary, Pow2, BitWriter.Valid, BitWriter.Contents;
    Pow2Of8();
    w.WriteBit(false);
    ok := w.WriteBits(code, 4);
    if !ok {
      return;
    }
    w.WriteBit(extended);
    w.WriteBit(sized);
    w.WriteBit(false);
    FirstBits(code, extended, sized);
    assert [] + [false] == [false];
  }

  lemma {:induction false} FirstBits(code: byte, extended: bool, sized: bool)
    requires code < 16
    ensures [false] + Binary(code, 4) + [extended] + [sized] + [false] ==
            BitsOf([code * 8 + (if extended then 4 else 0) + if sized then 2 else 0])
  {
    hide Binary, Pow2, BitsOf;
    Pow2Of8();
    var x, y := if extended then 1 else 0, if sized then 1 else 0;
    BinaryOfBit(false);
    BinaryOfBit(extended);
    BinaryOfBit(sized);
    BinaryJoin(0, 1, code, 4);
    BinaryJoin(code, 5, x, 1);
    BinaryJoin(code * 2 + x, 6, y, 1);
    BinaryJoin(code * 4 + x * 2 + y, 7, 0, 1);
    BitsOfByte(code * 8 + x * 4 + y * 2);
  }

  method MuxExtension(w: BitWriter, e: Extension) returns (ok: bool)
    requires w.Valid()
    modifies w
    ensures w.Valid() && (ok <==> ExtensionFits(e))
    ensures ok ==> w.Contents() == old(w.Contents()) + BitsOf(ExtensionBytes(Some(e)))
  {
    hide BitsOf, Binary, Pow2, BitWriter.Valid, BitWriter.Contents;
    Pow2Of8();
    ok := w.WriteBits(e.temporalId, 3);
    if !ok {
      return;
    }
    ok := w.WriteBits(e.spatialId, 2);
    if !ok {
      return;
    }
    ok := w.WriteBits(0, 3);
    ExtensionBits(e.temporalId, e.spatialId);
    var t, u, v := Binary(e.temporalId, 3), Binary(e.spatialId, 2), Binary(0, 3);
    assert old(w.Contents()) + t + u + v == old(w.Contents()) + (t + u + v);
  }

  lemma {:induction false} ExtensionBits(t: byte, u: byte)
    requires t < 8 && u < 4
    ensures Binary(t, 3) + Binary(u, 2) + Binary(0, 3) == BitsOf([t * 32 + u * 8])
  {
    hide Binary, Pow2, BitsOf;
    Pow2Of8();
    BinaryJoin(t, 3, u, 2);
    BinaryJoin(t * 4 + u, 5, 0, 3);
    BitsOfByte(t * 32 + u * 8);
  }

  method HeaderSize(h: ObuHeader) returns (size: nat)
    ensures Fits(h) ==> size == |HeaderBytes(h)|
  {
    var base := if h.extension.Some? then 2 else 1;
    var sizeField := 0;
    if h.size.Some? {
      sizeField := Leb128Size(h.size.value);
    }
    return base + sizeField;
  }

  // ---------------------------------------------------------------- round trip

  /**
   Between any other bytes, a written header reads back, all of it and nothing more, exactly when its
   type is canonical and its size has 32 bits.
   */
  lemma {:induction false} HeaderRoundTripExactlyWhen(before: bytes, h: ObuHeader, after: bytes)
    requires Fits(h)
    ensures HeaderAt(before + HeaderBytes(h) + after, |before|) ==
            Some(ParsedHeader(h, |before| + |HeaderBytes(h)|))
            <==> Canonical(h.obuType) && (h.size.Some? ==> h.size.value <= MAX32)
  {
    hide Leb, Leb128At, CodeOf, TypeOf;
    var s := before + HeaderBytes(h) + after;
    var f := FirstByte(CodeOf(h.obuType), h.extension.Some?, h.size.Some?);
    var fixed := before + [First(h)] + ExtensionBytes(h.extension);
    FixedRoundTrip(h);
    assert HeaderAt(s, |before|) == SizeAt(s, |fixed|, f, h.extension);
    if h.size.Some? {
      assert s == fixed + Leb(h.size.value) + after;
      LebRoundTripExactlyWhen(fixed, h.size.value, after);
    }
  }

  lemma {:induction false} FixedRoundTrip(h: ObuHeader)
    requires Fits(h)
    ensures ParseFirst(First(h)) == Some(FirstByte(CodeOf(h.obuType), h.extension.Some?, h.size.Some?))
    ensures h.extension.Some? ==> ParseExtension(ExtensionBytes(h.extension)[0]) == h.extension
  {
    hide CodeOf;
    var x, y := if h.extension.Some? then 1 else 0, if h.size.Some? then 1 else 0;
    FirstNumbers(CodeOf(h.obuType), x, y);
    if h.extension.Some? {
      ExtensionNumbers(h.extension.value.temporalId, h.extension.value.spatialId);
    }
  }

  lemma {:induction false} FirstNumbers(code: byte, x: nat, y: nat)
    requires code < 16 && x <= 1 && y <= 1
    ensures var b := code * 8 + x * 4 + y * 2;
            b < 128 && b % 2 == 0 && b / 8 % 16 == code && b / 4 % 2 == x && b / 2 % 2 == y
  {}

  lemma {:induction false} ExtensionNumbers(t: byte, u: byte)
    requires t < 8 && u < 4
    ensures var b := t * 32 + u * 8; b % 8 == 0 && b / 32 == t && b / 8 % 4 == u
  {}

  /** Only canonical types are ever read. */
  lemma {:induction false} ReadIsCanonical(data: bytes, p: nat)
    requires HeaderAt(data, p).Some?
    ensures Fits(HeaderAt(data, p).value.header) && Canonical(HeaderAt(data, p).value.header.obuType)
  {
    hide Leb128At;
    TypesAgree(data[p] / 8 % 16);
    hide TypeOf, CodeOf;
  }

  lemma {:induction false} TypesAgree(code: byte)
    ensures CodeOf(TypeOf(code)) == code
  {}

  /** The types by their codes, as section 6.2.2 of the AV1 specification lists them. */
  lemma {:induction false} NamedCodes(code: byte)
    ensures 1 <= code <= 8 ==>
              TypeOf(code) == [SequenceHeader, TemporalDelimiter, FrameHeader, TileGroup,
                               Metadata, Frame, RedundantFrameHeader, TileList][code - 1]
    ensures TypeOf(15) == Padding && (code == 0 || (8 < code && code != 15) ==> TypeOf(code) == Reserved(code))
  {}

  /** The fixed part of a header in front of a position, as it is written. */
  predicate FixedPart(data: bytes, p: nat, h: ObuHeader, q: nat) {
    && Fits(h) && Canonical(h.obuType)
    && p <= q <= |data| && data[p..q] == [First(h)] + ExtensionBytes(h.extension)
  }

  /** A header is read if and only if its fixed part is there as it is written, and its size in any spelling. */
  lemma {:induction false} HeaderExactlyWhen(data: bytes, p: nat, h: ObuHeader, next: nat)
    ensures var q := p + if h.extension.Some? then 2 else 1;
            HeaderAt(data, p) == Some(ParsedHeader(h, next)) <==>
            && FixedPart(data, p, h, q)
            && if h.size.None? then next == q else Leb128At(data, q) == Some(Number.Number(h.size.value, next))
  {
    var q := p + if h.extension.Some? then 2 else 1;
    hide Leb128At, TypeOf, CodeOf;
    if q <= |data| {
      if FixedPart(data, p, h, q) {
        FixedRoundTrip(h);
        assert data[p] == data[p..q][0] && (h.extension.Some? ==> data[p + 1] == data[p..q][1]);
        hide ParseFirst, ParseExtension, First;
      } else if HeaderAt(data, p) == Some(ParsedHeader(h, next)) {
        FixedIsThere(data, p, h, next);
      }
    }
  }

  lemma {:induction false} FixedIsThere(data: bytes, p: nat, h: ObuHeader, next: nat)
    requires HeaderAt(data, p) == Some(ParsedHeader(h, next))
    ensures FixedPart(data, p, h, p + if h.extension.Some? then 2 else 1)
  {
    hide Leb128At, TypeOf, CodeOf;
    ReadIsCanonical(data, p);
    TypesAgree(data[p] / 8 % 16);
    FirstByteIs(data[p]);
    if h.extension.Some? {
      assert data[p..p + 2] == [data[p], data[p + 1]];
    } else {
      assert data[p..p + 1] == [data[p]];
    }
  }

  lemma {:induction false} FirstByteIs(b: byte)
    requires b < 128 && b % 2 == 0
    ensures b == b / 8 % 16 * 8 + b / 4 % 2 * 4 + b / 2 % 2 * 2
  {
    assert b / 2 == b / 2 / 2 * 2 + b / 2 % 2 && b / 2 / 2 == b / 4;
    assert b / 4 == b / 4 / 2 * 2 + b / 4 % 2 && b / 4 / 2 == b / 8;
  }
}
