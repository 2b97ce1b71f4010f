/** The HEVC decoder configuration record: section 8.3.2.1 of ISO/IEC 14496-15. */
module Hevc {
  import opened Bytes
  import opened Collect
  import opened Bits
  import opened BitIo
  import opened BitFields

  const SPS: byte := 33

  datatype NaluArray = NaluArray(completeness: bool, nalType: byte, nalus: seq<bytes>)

  datatype General = General(profileSpace: byte, tierFlag: bool, profileIdc: byte,
                             compatibilityFlags: u32, constraintFlags: u64, levelIdc: byte)

  datatype Format = Format(minSpatialSegmentation: u16, parallelism: byte, chromaFormat: byte,
                           lumaDepth: byte, chromaDepth: byte)

  /** The number of temporal layers; zero and one have names of their own. */
  datatype NumTemporalLayers = Unknown | NotScalable | Count(count: byte)

  function LayersFromByte(b: byte): NumTemporalLayers {
    if b == 0 then Unknown else if b == 1 then NotScalable else Count(b)
  }

  function LayersToByte(n: NumTemporalLayers): byte {
    match n
    case Unknown => 0
    case NotScalable => 1
    case Count(count) => count
  }

  datatype Layers = Layers(avgFrameRate: u16, constantFrameRate: byte, temporalLayers: NumTemporalLayers,
                           temporalIdNested: bool, lengthSizeMinusOne: byte)

  datatype Record = Record(general: General, format: Format, layers: Layers, arrays: seq<NaluArray>)

  // ---------------------------------------------------------------- the record, as a function

  function FlagsOf(b: bytes): (u32, u64)
    requires |b| == 10
  {
    (U32(b[0], b[1], b[2], b[3]), U16(b[4], b[5]) * 0x1_0000_0000 + U32(b[6], b[7], b[8], b[9]))
  }

  function GeneralOf(b: bytes): General
    requires |b| == 12
  {
    var flags := FlagsOf(b[1..11]);
    General(b[0] / 64, b[0] / 32 % 2 == 1, b[0] % 32, flags.0, flags.1, b[11])
  }

  function FormatOf(b: bytes): Format
    requires |b| == 6
  {
    Format(U16(b[0] % 16, b[1]), b[2] % 4, b[3] % 4, b[4] % 8, b[5] % 8)
  }

  function LayersOf(b: bytes): Layers
    requires |b| == 3
  {
    Layers(U16(b[0], b[1]), b[2] / 64, LayersFromByte(b[2] / 8 % 8), b[2] / 4 % 2 == 1, b[2] % 4)
  }

  /** Parameter sets and supplemental information only. */
  predicate Admitted(nalType: byte) { nalType in {32, 33, 34, 39, 40} }

  function NaluAt(data: bytes, p: nat): (r: Option<At<bytes>>)
    ensures r.Some? ==> p < r.value.next <= |data|
  {
    if p + 2 > |data| then None
    else
      var end := p + 2 + U16(data[p], data[p + 1]);
      if end > |data| then None else Some(At(data[p + 2..end], end))
  }

  function NalusFrom(data: bytes, p: nat, n: nat): Option<At<seq<bytes>>>
    decreases n
  {
    if n == 0 then Some(At([], p))
    else
      var x := NaluAt(data, p);
      if x.None? then None else PrependAt(x.value.item, NalusFrom(data, x.value.next, n - 1))
  }

  /** Types from 48 on have no name; looking one up panics, before its admission is in question. */
  predicate TypeIsKnown(nalType: byte) { nalType < 48 }

  function ArrayAt(data: bytes, p: nat): Outcome<At<NaluArray>> {
    if p >= |data| then Rejected
    else if !TypeIsKnown(data[p] % 64) then Panicked
    else if !Admitted(data[p] % 64) || p + 3 > |data| then Rejected
    else
      var x := NalusFrom(data, p + 3, U16(data[p + 1], data[p + 2]));
      if x.None? then Rejected
      else Done(At(NaluArray(data[p] >= 128, data[p] % 64, x.value.item), x.value.next))
  }

  function ArraysFrom(data: bytes, p: nat, n: nat): Outcome<At<seq<NaluArray>>>
    decreases n
  {
    if n == 0 then Done(At([], p))
    else
      match ArrayAt(data, p)
      case Done(x) => PrependDone(x.item, ArraysFrom(data, x.next, n - 1))
      case Rejected => Rejected
      case Panicked => Panicked
  }

  /** A frame rate code of three has no name either; it is looked up when everything has been read. */
  predicate RateIsKnown(code: byte) { code < 3 }

  function FixedOf(data: bytes): (General, Format, Layers, byte)
    requires |data| >= 23
  {
    (GeneralOf(data[1..13]), FormatOf(data[13..19]), LayersOf(data[19..22]), data[22])
  }

  function RecordOf(data: bytes): Outcome<Record> {
    if |data| < 23 || data[0] != 1 || data[21] % 4 == 2 then Rejected
    else
      match ArraysFrom(data, 23, data[22])
      case Done(arrays) =>
        if RateIsKnown(data[21] / 64)
        then Done(Record(GeneralOf(data[1..13]), FormatOf(data[13..19]), LayersOf(data[19..22]), arrays.item))
        else Panicked
      case Rejected => Rejected
      case Panicked => Panicked
  }

  // ---------------------------------------------------------------- fields that are not bytes

  lemma {:induction false} ValueAppend(s: bits, t: bits)
    ensures Value(s + t) == Value(s) * Pow2(|t|) + Value(t)
    decreases |t|
  {
    if t == [] {
      assert s + t == s;
    } else {
      var u, b := t[..|t| - 1], t[|t| - 1];
      assert s + t == s + u + [b] && t == u + [b];
      ValueAppend(s, u);
      ValueSnoc(s + u, b);
      ValueSnoc(u, b);
      Twice(Value(s), Pow2(|u|));
      assert Pow2(|t|) == 2 * Pow2(|u|);
    }
  }

  lemma {:induction false} Twice(a: nat, m: nat)
    ensures 2 * (a * m) == a * (2 * m)
  {}

  /** A field that starts inside one byte and ends with the next. */
  lemma {:induction false} WideField(data: bytes, p: nat)
    requires p + 1 < |data|
    ensures 8 * p + 16 <= |BitsOf(data)|
    ensures Value(BitsOf(data)[8 * p + 4..8 * p + 16]) == U16(data[p] % 16, data[p + 1])
  {
    hide Value, BitsOf, Pow2;
    Pow2Of8();
    Pow2Step(0);
    Field(data, p, 4, 8);
    Field(data, p + 1, 0, 8);
    var s := BitsOf(data);
    assert s[8 * p + 4..8 * p + 16] == s[8 * p + 4..8 * p + 8] + s[8 * (p + 1)..8 * (p + 1) + 8];
    ValueAppend(s[8 * p + 4..8 * p + 8], s[8 * (p + 1)..8 * (p + 1) + 8]);
  }

  lemma {:induction false} ProfileFields(data: bytes, p: nat)
    requires p < |data|
    ensures var s, b := BitsOf(data), data[p];
            && |s| >= 8 * p + 8 && Value(s[8 * p..8 * p + 2]) == b / 64
            && s[8 * p + 2] == (b / 32 % 2 == 1) && Value(s[8 * p + 3..8 * p + 8]) == b % 32
  {
    hide Value, BitsOf, Pow2;
    Pow2Of8();
    Pow2Step(0);
    Field(data, p, 0, 2);
    FieldBit(data, p, 2);
    Field(data, p, 3, 8);
  }

  method ReadProfile(r: BitReader, ghost p: nat) returns (x: Option<(byte, bool, byte)>)
    requires AtByte(r, p)
    modifies r
    ensures if p < |r.data|
            then x == Some((r.data[p] / 64, r.data[p] / 32 % 2 == 1, r.data[p] % 32)) && AtByte(r, p + 1)
            else x == None
  {
    hide Value, BitsOf, Pow2, BitReader.Valid, BitReader.Position;
    if p < |r.data| {
      ProfileFields(r.data, p);
    }
    var space := r.ReadBits(2);
    if space.None? {
      return None;
    }
    var tier := r.ReadBit();
    var idc := r.ReadBits(5);
    return Some((space.value, tier.value, idc.value));
  }

  /** Skips the reserved bits of a byte and reads the others. */
  method ReadLow(r: BitReader, reserved: byte, ghost p: nat) returns (x: Option<byte>)
    requires AtByte(r, p) && (reserved == 5 || reserved == 6)
    modifies r
    ensures if p < |r.data| then x == Some(r.data[p] % if reserved == 5 then 8 else 4) && AtByte(r, p + 1)
            else x == None
  {
    hide Value, BitsOf, Pow2, BitReader.Valid, BitReader.Position;
    if p < |r.data| {
      Pow2Of8();
      Pow2Step(0);
      Field(r.data, p, reserved, 8);
    }
    var skipped := r.ReadBits(reserved);
    if skipped.None? {
      return None;
    }
    var value := r.ReadBits(8 - reserved);
    return Some(value.value);
  }

  method ReadSegmentation(r: BitReader, ghost p: nat) returns (x: Option<u16>)
    requires AtByte(r, p)
    modifies r
    ensures if p + 2 <= |r.data| then x == Some(U16(r.data[p] % 16, r.data[p + 1])) && AtByte(r, p + 2)
            else x == None
  {
    hide Value, BitsOf, Pow2, BitReader.Valid, BitReader.Position;
    if p + 2 <= |r.data| {
      WideField(r.data, p);
    }
    var skipped := r.ReadBits(4);
    if skipped.None? {
      return None;
    }
    var value := r.ReadBits(12);
    return if value.None? then None else Some(value.value);
  }

  lemma {:induction false} RateFields(data: bytes, p: nat)
    requires p < |data|
    ensures var s, b := BitsOf(data), data[p];
            && |s| >= 8 * p + 8 && Value(s[8 * p..8 * p + 2]) == b / 64
            && Value(s[8 * p + 2..8 * p + 5]) == b / 8 % 8
            && s[8 * p + 5] == (b / 4 % 2 == 1) && Value(s[8 * p + 6..8 * p + 8]) == b % 4
  {
    hide Value, BitsOf, Pow2;
    Pow2Of8();
    Pow2Step(0);
    Field(data, p, 0, 2);
    Field(data, p, 2, 5);
    FieldBit(data, p, 5);
    Field(data, p, 6, 8);
  }

  method ReadRates(r: BitReader, ghost p: nat) returns (x: Option<(byte, byte, bool, byte)>)
    requires AtByte(r, p)
    modifies r
    ensures var b := if p < |r.data| then r.data[p] else 0;
            if p < |r.data| then x == Some((b / 64, b / 8 % 8, b / 4 % 2 == 1, b % 4)) && AtByte(r, p + 1)
            else x == None
  {
    hide Value, BitsOf, Pow2, BitReader.Valid, BitReader.Position;
    if p < |r.data| {
      RateFields(r.data, p);
    }
    var constant := r.ReadBits(2);
    if constant.None? {
      return None;
    }
    var layers := r.ReadBits(3);
    var nested := r.ReadBit();
    var length := r.ReadBits(2);
    return Some((constant.value, layers.value, nested.value, length.value));
  }

  // ---------------------------------------------------------------- the record, read field by field

  method ReadGeneral(r: BitReader, ghost p: nat) returns (x: Option<General>)
    requires AtByte(r, p)
    modifies r
    ensures if p + 12 <= |r.data| then x == Some(GeneralOf(r.data[p..p + 12])) && AtByte(r, p + 12) else x == None
  {
    hide AtByte, FlagsOf;
    if p + 12 <= |r.data| {
      InnerSlice(r.data, p);
    }
    var profile := ReadProfile(r, p);
    if profile.None? {
      return None;
    }
    var flags := ReadFlags(r, p + 1);
    if flags.None? {
      return None;
    }
    var level := ReadBytesOf(r, 1, p + 11);
    if level.None? {
      return None;
    }
    return Some(General(profile.value.0, profile.value.1, profile.value.2, flags.value.0, flags.value.1, level.value[0]));
  }

  lemma {:induction false} InnerSlice(s: bytes, p: nat)
    requires p + 12 <= |s|
    ensures s[p..p + 12][1..11] == s[p + 1..p + 11]
  {
    var x, y := s[p..p + 12][1..11], s[p + 1..p + 11];
    assert forall k :: 0 <= k < |x| ==> x[k] == y[k];
  }

  /** The compatibility and the constraint flags. */
  method ReadFlags(r: BitReader, ghost p: nat) returns (x: Option<(u32, u64)>)
    requires AtByte(r, p)
    modifies r
    ensures if p + 10 <= |r.data|
            then x == Some(FlagsOf(r.data[p..p + 10])) && AtByte(r, p + 10) else x == None
  {
    hide AtByte, U16, U32;
    var compatibility := ReadBytesOf(r, 4, p);
    if compatibility.None? {
      return None;
    }
    var constraint := ReadBytesOf(r, 6, p + 4);
    if constraint.None? {
      return None;
    }
    assert compatibility.value + constraint.value == r.data[p..p + 10];
    return Some(FlagsOf(compatibility.value + constraint.value));
  }

  method ReadFormat(r: BitReader, ghost p: nat) returns (x: Option<Format>)
    requires AtByte(r, p)
    modifies r
    ensures if p + 6 <= |r.data| then x == Some(FormatOf(r.data[p..p + 6])) && AtByte(r, p + 6) else x == None
  {
    hide AtByte;
    var segmentation := ReadSegmentation(r, p);
    if segmentation.None? {
      return None;
    }
    var parallelism := ReadLow(r, 6, p + 2);
    if parallelism.None? {
      return None;
    }
    var chroma := ReadLow(r, 6, p + 3);
    if chroma.None? {
      return None;
    }
    var luma := ReadLow(r, 5, p + 4);
    if luma.None? {
      return None;
    }
    var chromaDepth := ReadLow(r, 5, p + 5);
    if chromaDepth.None? {
      return None;
    }
    return Some(Format(segmentation.value, parallelism.value, chroma.value, luma.value, chromaDepth.value));
  }

  method ReadLayers(r: BitReader, ghost p: nat) returns (x: Option<Layers>)
    requires AtByte(r, p)
    modifies r
    ensures if p + 3 <= |r.data| then x == Some(LayersOf(r.data[p..p + 3])) && AtByte(r, p + 3) else x == None
  {
    hide AtByte;
    var rate := ReadBytesOf(r, 2, p);
    if rate.None? {
      return None;
    }
    var x' := ReadRates(r, p + 2);
    if x'.None? {
      return None;
    }
    return Some(Layers(U16(rate.value[0], rate.value[1]), x'.value.0, LayersFromByte(x'.value.1), x'.value.2, x'.value.3));
  }

  method ReadNalu(r: BitReader, ghost p: nat) returns (x: Option<bytes>)
    requires AtByte(r, p)
    modifies r
    ensures var e := NaluAt(r.data, p);
            if e.None? then x == None else x == Some(e.value.item) && AtByte(r, e.value.next)
  {
    hide AtByte;
    var length := ReadBytesOf(r, 2, p);
    if length.None? {
      return None;
    }
    var n := U16(length.value[0], length.value[1]);
    if n == 0 {
      assert r.data[p + 2..p + 2] == [];
      return Some([]);
    }
    x := ReadBytesOf(r, n, p + 2);
  }

  method ReadNalus(r: BitReader, n: nat, ghost p: nat) returns (nalus: Option<seq<bytes>>)
    requires AtByte(r, p)
    modifies r
    ensures var e := NalusFrom(r.data, p, n);
            if e.None? then nalus == None else nalus == Some(e.value.item) && AtByte(r, e.value.next)
  {
    hide AtByte, NaluAt, CollectedAt, PrependAt;
    var done: seq<bytes> := [];
    ghost var q, all := p, NalusFrom(r.data, p, n);
    CollectedAtEnds(done, q, all);
    for i := 0 to n
      invariant AtByte(r, q) && all == CollectedAt(done, NalusFrom(r.data, q, n - i))
    {
      CollectedAtEnds(done, q, all);
      var x := ReadNalu(r, q);
      if x.None? {
        return None;
      }
      q := NaluAt(r.data, q).value.next;
      CollectedAtGrows(done, x.value, NalusFrom(r.data, q, n - i - 1));
      done := done + [x.value];
    }
    CollectedAtEnds(done, q, all);
    return Some(done);
  }

  lemma {:induction false} TypeFields(data: bytes, p: nat)
    requires p < |data|
    ensures var s, b := BitsOf(data), data[p];
            |s| >= 8 * p + 8 && s[8 * p] == (b >= 128) && Value(s[8 * p + 2..8 * p + 8]) == b % 64
  {
    hide Value, BitsOf, Pow2;
    Pow2Of8();
    Pow2Step(0);
    FieldBit(data, p, 0);
    Field(data, p, 2, 8);
  }

  method ReadType(r: BitReader, ghost p: nat) returns (x: Option<(bool, byte)>)
    requires AtByte(r, p)
    modifies r
    ensures if p < |r.data| then x == Some((r.data[p] >= 128, r.data[p] % 64)) && AtByte(r, p + 1) else x == None
  {
    hide Value, BitsOf, Pow2, BitReader.Valid, BitReader.Position;
    if p < |r.data| {
      TypeFields(r.data, p);
    }
    var completeness := r.ReadBit();
    if completeness.None? {
      return None;
    }
    var _ := r.ReadBits(1);
    var nalType := r.ReadBits(6);
    return Some((completeness.value, nalType.value));
  }

  method ReadArray(r: BitReader, ghost p: nat) returns (x: Outcome<NaluArray>)
    requires AtByte(r, p)
    modifies r
    ensures var e := ArrayAt(r.data, p);
            match e
            case Done(y) => x == Done(y.item) && AtByte(r, y.next)
            case Rejected => x == Rejected
            case Panicked => x == Panicked
  {
    hide AtByte, NalusFrom;
    var head := ReadType(r, p);
    if head.None? {
      return Rejected;
    }
    if !TypeIsKnown(head.value.1) {
      return Panicked;
    }
    if !Admitted(head.value.1) {
      return Rejected;
    }
    var count := ReadBytesOf(r, 2, p + 1);
    if count.None? {
      return Rejected;
    }
    var nalus := ReadNalus(r, U16(count.value[0], count.value[1]), p + 3);
    return if nalus.None? then Rejected else Done(NaluArray(head.value.0, head.value.1, nalus.value));
  }

  method ReadArrays(r: BitReader, n: nat, ghost p: nat) returns (arrays: Outcome<seq<NaluArray>>)
    requires AtByte(r, p)
    modifies r
    ensures var e := ArraysFrom(r.data, p, n);
            match e
            case Done(y) => arrays == Done(y.item) && AtByte(r, y.next)
            case Rejected => arrays == Rejected
            case Panicked => arrays == Panicked
  {
    hide AtByte, ArrayAt, CollectedDone, PrependDone;
    var done: seq<NaluArray> := [];
    ghost var q, all := p, ArraysFrom(r.data, p, n);
    CollectedDoneEnds(done, q, all);
    for i := 0 to n
      invariant AtByte(r, q) && all == CollectedDone(done, ArraysFrom(r.data, q, n - i))
    {
      CollectedDoneEnds(done, q, ArraysFrom(r.data, q, n - i));
      var x := ReadArray(r, q);
      match x {
        case Rejected => return Rejected;
        case Panicked => return Panicked;
        case Done(_) =>
      }
      q := ArrayAt(r.data, q).value.next;
      CollectedDoneGrows(done, x.value, ArraysFrom(r.data, q, n - i - 1));
      done := done + [x.value];
    }
    CollectedDoneEnds(done, q, all);
    return Done(done);
  }

  /** The fixed part: version, fields, and the number of arrays. */
  method ReadFixed(r: BitReader) returns (x: Option<(General, Format, Layers, byte)>)
    requires AtByte(r, 0)
    modifies r
    ensures if |r.data| >= 23 && r.data[0] == 1 && r.data[21] % 4 != 2
            then x == Some(FixedOf(r.data)) && AtByte(r, 23) else x == None
  {
    hide AtByte, GeneralOf, FormatOf, LayersFromByte, U16;
    var version := ReadBytesOf(r, 1, 0);
    if version.None? || version.value[0] != 1 {
      return None;
    }
    var general := ReadGeneral(r, 1);
    if general.None? {
      return None;
    }
    var format := ReadFormat(r, 13);
    if format.None? {
      return None;
    }
    var layers := ReadLayers(r, 19);
    if layers.None? {
      return None;
    }
    if layers.value.lengthSizeMinusOne == 2 {
      return None;
    }
    var count := ReadBytesOf(r, 1, 22);
    if count.None? {
      return None;
    }
    return Some((general.value, format.value, layers.value, count.value[0]));
  }

  method Demux(data: bytes) returns (x: Outcome<Record>)
    ensures x == RecordOf(data)
  {
    var r := new BitReader.At(data, 0);
    assert AtByte(r, 0);
    hide AtByte, GeneralOf, FormatOf, ArraysFrom, LayersFromByte, U16, BitReader.Valid, BitReader.Position;
    var fixed := ReadFixed(r);
    if fixed.None? {
      return Rejected;
    }
    var arrays := ReadArrays(r, fixed.value.3, 23);
    match arrays {
      case Rejected => return Rejected;
      case Panicked => return Panicked;
      case Done(a) =>
        return
          if RateIsKnown(fixed.value.2.constantFrameRate)
          then Done(Record(fixed.value.0, fixed.value.1, fixed.value.2, a)) else Panicked;
    }
  }

  // ---------------------------------------------------------------- the short way to the first parameter set

  datatype Scan = Found(nalu: bytes) | Passed(next: nat) | Failed

  function ScanNalus(data: bytes, p: nat, n: nat, wanted: bool): Scan
    decreases n
  {
    if n == 0 then Passed(p)
    else
      var x := NaluAt(data, p);
      if x.None? then Failed
      else if wanted then Found(x.value.item)
      else ScanNalus(data, x.value.next, n - 1, wanted)
  }

  function ScanArray(data: bytes, p: nat): Scan {
    if p + 3 > |data| then Failed
    else ScanNalus(data, p + 3, U16(data[p + 1], data[p + 2]), data[p] % 64 == SPS)
  }

  function ScanArrays(data: bytes, p: nat, n: nat): Scan
    decreases n
  {
    if n == 0 then Passed(p)
    else
      var x := ScanArray(data, p);
      if x.Passed? then ScanArrays(data, x.next, n - 1) else x
  }

  function FirstSpsOf(data: bytes): Option<bytes> {
    if |data| < 23 || data[0] != 1 then None
    else
      var x := ScanArrays(data, 23, data[22]);
      if x.Found? then Some(x.nalu) else None
  }

  method FirstSpsNalu(data: bytes) returns (r: Option<bytes>)
    ensures r == FirstSpsOf(data)
  {
    hide ScanArray;
    if |data| < 23 {
      return None;
    }
    if data[0] != 1 {
      return None;
    }
    var n: nat, offset: nat := data[22], 23;
    for i := 0 to n
      invariant ScanArrays(data, 23, n) == ScanArrays(data, offset, n - i)
    {
      var x := ScanOne(data, offset);
      match x {
        case Failed => return None;
        case Found(nalu) => return Some(nalu);
        case Passed(next) => offset := next;
      }
    }
    return None;
  }

  /** The inner loop, over the units of one array. */
  method ScanOne(data: bytes, start: nat) returns (r: Scan)
    ensures r == ScanArray(data, start)
  {
    hide U16, NaluAt;
    var offset: nat := start;
    if offset + 3 > |data| {
      return Failed;
    }
    var nalType := data[offset] % 64;
    offset := offset + 1;
    var n := U16(data[offset], data[offset + 1]);
    offset := offset + 2;
    for i := 0 to n
      invariant ScanArray(data, start) == ScanNalus(data, offset, n - i, nalType == SPS)
    {
      NaluAtIs(data, offset);
      if offset + 2 > |data| {
        return Failed;
      }
      var length := U16(data[offset], data[offset + 1]);
      offset := offset + 2;
      if offset + length > |data| {
        return Failed;
      }
      var nalu := data[offset..offset + length];
      offset := offset + length;
      if nalType == SPS {
        return Found(nalu);
      }
    }
    return Passed(offset);
  }

  lemma {:induction false} NaluAtIs(data: bytes, p: nat)
    ensures if p + 2 > |data| || p + 2 + U16(data[p], data[p + 1]) > |data| then NaluAt(data, p) == None
            else
              var end := p + 2 + U16(data[p], data[p + 1]);
              NaluAt(data, p) == Some(At(data[p + 2..end], end))
  {}

  // ---------------------------------------------------------------- agreement

  /** The first sequence parameter set of a parsed record, in the order of its arrays. */
  function FirstSps(arrays: seq<NaluArray>): Option<bytes> {
    if arrays == [] then None
    else if arrays[0].nalType == 33 && arrays[0].nalus != [] then Some(arrays[0].nalus[0])
    else FirstSps(arrays[1..])
  }

  lemma {:induction false} ScanOfNalus(data: bytes, p: nat, n: nat, wanted: bool)
    requires NalusFrom(data, p, n).Some?
    ensures var x := NalusFrom(data, p, n).value;
            ScanNalus(data, p, n, wanted) == if wanted && x.item != [] then Found(x.item[0]) else Passed(x.next)
    decreases n
  {
    hide NaluAt;
    if n > 0 && !wanted {
      ScanOfNalus(data, NaluAt(data, p).value.next, n - 1, wanted);
    }
  }

  lemma {:induction false} ScanOfArrays(data: bytes, p: nat, n: nat)
    requires ArraysFrom(data, p, n).Done?
    ensures var x := ArraysFrom(data, p, n).value;
            ScanArrays(data, p, n) == if FirstSps(x.item).Some? then Found(FirstSps(x.item).value) else Passed(x.next)
    decreases n
  {
    hide NalusFrom, ScanNalus;
    if n > 0 {
      ScanOfNalus(data, p + 3, U16(data[p + 1], data[p + 2]), data[p] % 64 == SPS);
      var x := ArrayAt(data, p).value;
      ScanOfArrays(data, x.next, n - 1);
      var all := ArraysFrom(data, p, n).value.item;
      assert all[0] == x.item && all[1..] == ArraysFrom(data, x.next, n - 1).value.item;
    }
  }

  /** On every record the full parser accepts, the short way finds its first sequence parameter set, or none if it has none. */
  lemma {:induction false} FirstSpsAgrees(data: bytes)
    requires RecordOf(data).Done?
    ensures FirstSpsOf(data) == FirstSps(RecordOf(data).value.arrays)
  {
    hide GeneralOf, FormatOf, LayersOf, ArraysFrom, ScanArrays, FirstSps;
    ScanOfArrays(data, 23, data[22]);
  }

  /** The scan looks at the version, the number of arrays and the arrays, and at nothing else. */
  lemma {:induction false} ScanIgnoresTheRest(data: bytes, other: bytes)
    requires |data| == |other| && (data != [] ==> data[0] == other[0])
    requires forall i :: 22 <= i < |data| ==> data[i] == other[i]
    ensures FirstSpsOf(data) == FirstSpsOf(other)
  {
    hide ScanArrays;
    if |data| >= 23 {
      SameArrays(data, other, 23, data[22]);
    }
  }

  lemma {:induction false} SameNalus(data: bytes, other: bytes, p: nat, n: nat, wanted: bool)
    requires p >= 22 && |data| == |other| && forall i :: 22 <= i < |data| ==> data[i] == other[i]
    ensures ScanNalus(data, p, n, wanted) == ScanNalus(other, p, n, wanted)
    ensures ScanNalus(data, p, n, wanted).Passed? ==> ScanNalus(data, p, n, wanted).next >= p
    decreases n
  {
    SameNalu(data, other, p);
    hide NaluAt;
    if n > 0 && NaluAt(data, p).Some? && !wanted {
      SameNalus(data, other, NaluAt(data, p).value.next, n - 1, wanted);
    }
  }

  lemma {:induction false} SameNalu(data: bytes, other: bytes, p: nat)
    requires p >= 22 && |data| == |other| && forall i :: 22 <= i < |data| ==> data[i] == other[i]
    ensures NaluAt(data, p) == NaluAt(other, p)
  {
    hide U16;
    if p + 2 <= |data| {
      var end := p + 2 + U16(data[p], data[p + 1]);
      if end <= |data| {
        assert data[p + 2..end] == other[p + 2..end];
      }
    }
  }

  lemma {:induction false} SameArrays(data: bytes, other: bytes, p: nat, n: nat)
    requires p >= 22 && |data| == |other| && forall i :: 22 <= i < |data| ==> data[i] == other[i]
    ensures ScanArrays(data, p, n) == ScanArrays(other, p, n)
    decreases n
  {
    hide ScanNalus, U16;
    if n > 0 && p + 3 <= |data| {
      SameNalus(data, other, p + 3, U16(data[p + 1], data[p + 2]), data[p] % 64 == SPS);
      if ScanArray(data, p).Passed? {
        SameArrays(data, other, ScanArray(data, p).next, n - 1);
      }
    }
  }

  /**
   So it is more lenient. Whatever byte takes the place of the one that holds frame rate and length size,
   the scan finds the same set; the full parser accepts the result if and only if both codes are known.
   */
  lemma {:induction false} ShortWayIsLenient(data: bytes, b: byte)
    requires RecordOf(data).Done?
    ensures FirstSpsOf(data[21 := b]) == FirstSps(RecordOf(data).value.arrays)
    ensures RecordOf(data[21 := b]).Done? <==> b % 4 != 2 && b / 64 < 3
    ensures RecordOf(data[21 := b]).Rejected? <==> b % 4 == 2
  {
    FirstSpsAgrees(data);
    ScanIgnoresTheRest(data, data[21 := b]);
    SameRecordArrays(data, data[21 := b], 23, data[22]);
    hide FirstSpsOf, FirstSps, ArraysFrom, GeneralOf, FormatOf, LayersOf;
  }

  /** Of the bytes before the arrays only the version, the frame rate and the length size can be wrong. */
  lemma {:induction false} FixedPartExactlyWhen(data: bytes, other: bytes)
    requires RecordOf(data).Done? && |other| == |data| && forall i :: 22 <= i < |data| ==> data[i] == other[i]
    ensures RecordOf(other).Done? <==> other[0] == 1 && other[21] % 4 != 2 && other[21] / 64 < 3
    ensures RecordOf(other).Done? ==> RecordOf(other).value.arrays == RecordOf(data).value.arrays
  {
    SameRecordArrays(data, other, 23, data[22]);
    hide ArraysFrom, GeneralOf, FormatOf, LayersOf;
  }

  lemma {:induction false} SameRecordArrays(data: bytes, other: bytes, p: nat, n: nat)
    requires p >= 22 && |data| == |other| && forall i :: 22 <= i < |data| ==> data[i] == other[i]
    ensures ArraysFrom(data, p, n) == ArraysFrom(other, p, n)
    decreases n
  {
    hide NalusFrom, U16, Admitted;
    if n > 0 && p + 3 <= |data| {
      SameRecordNalus(data, other, p + 3, U16(data[p + 1], data[p + 2]));
      if ArrayAt(data, p).Done? {
        SameRecordArrays(data, other, ArrayAt(data, p).value.next, n - 1);
      }
    }
  }

  lemma {:induction false} SameRecordNalus(data: bytes, other: bytes, p: nat, n: nat)
    requires p >= 22 && |data| == |other| && forall i :: 22 <= i < |data| ==> data[i] == other[i]
    ensures NalusFrom(data, p, n) == NalusFrom(other, p, n)
    ensures NalusFrom(data, p, n).Some? ==> NalusFrom(data, p, n).value.next >= p
    decreases n
  {
    SameNalu(data, other, p);
    hide NaluAt;
    if n > 0 && NaluAt(data, p).Some? {
      SameRecordNalus(data, other, NaluAt(data, p).value.next, n - 1);
    }
  }
}
