/** Writing the HEVC decoder configuration record, and reading it back. */
module HevcMux {
  import opened Bytes
  import opened Collect
  import opened Bits
  import opened BitIo
  import opened BitFields
  import opened Hevc

  // ---------------------------------------------------------------- the bytes, as functions

  predicate ProfileFits(g: General) { g.profileSpace < 4 && g.profileIdc < 32 }

  predicate GeneralFits(g: General) { ProfileFits(g) && g.constraintFlags < 0x1_0000_0000_0000 }

  function GeneralBytes(g: General): (r: bytes)
    requires GeneralFits(g)
    ensures |r| == 12
  {
    [g.profileSpace * 64 + Bit(g.tierFlag) * 32 + g.profileIdc] + U32Bytes(g.compatibilityFlags)
    + U48Bytes(g.constraintFlags) + [g.levelIdc]
  }

  function U48Bytes(n: u64): (r: bytes)
    requires n < 0x1_0000_0000_0000
    ensures |r| == 6
  {
    U16Bytes(n / 0x1_0000_0000) + U32Bytes(n % 0x1_0000_0000)
  }

  predicate FormatFits(f: Format) {
    f.minSpatialSegmentation < 4096 && f.parallelism < 4 && f.chromaFormat < 4 && f.lumaDepth < 8 && f.chromaDepth < 8
  }

  /** The reserved bits are ones. */
  function FormatBytes(f: Format): (r: bytes)
    requires FormatFits(f)
    ensures |r| == 6
  {
    [0xF0 + f.minSpatialSegmentation / 256, f.minSpatialSegmentation % 256,
     0xFC + f.parallelism, 0xFC + f.chromaFormat, 0xF8 + f.lumaDepth, 0xF8 + f.chromaDepth]
  }

  predicate LayersFit(l: Layers) {
    RateIsKnown(l.constantFrameRate) && LayersToByte(l.temporalLayers) < 8 && l.lengthSizeMinusOne < 4
  }

  function LayersByte(l: Layers): byte
    requires LayersFit(l)
  {
    l.constantFrameRate * 64 + LayersToByte(l.temporalLayers) * 8 + Bit(l.temporalIdNested) * 4 + l.lengthSizeMinusOne
  }

  function LayersBytes(l: Layers): (r: bytes)
    requires LayersFit(l)
    ensures |r| == 3
  {
    U16Bytes(l.avgFrameRate) + [LayersByte(l)]
  }

  /** Lengths and counts are cut to their fields. */
  function NaluBytes(nalu: bytes): bytes { U16Bytes(|nalu| % 0x1_0000) + nalu }

  function NalusBytes(nalus: seq<bytes>): bytes {
    if nalus == [] then [] else NaluBytes(nalus[0]) + NalusBytes(nalus[1..])
  }

  function ArrayBytes(a: NaluArray): bytes
    requires a.nalType < 64
  {
    [Bit(a.completeness) * 128 + a.nalType] + U16Bytes(|a.nalus| % 0x1_0000) + NalusBytes(a.nalus)
  }

  predicate ArraysFit(arrays: seq<NaluArray>) { forall i :: 0 <= i < |arrays| ==> arrays[i].nalType < 64 }

  function ArraysBytes(arrays: seq<NaluArray>): bytes
    requires ArraysFit(arrays)
  {
    if arrays == [] then [] else ArrayBytes(arrays[0]) + ArraysBytes(arrays[1..])
  }

  predicate RecordFits(x: Record) {
    GeneralFits(x.general) && FormatFits(x.format) && LayersFit(x.layers) && ArraysFit(x.arrays)
  }

  function FixedBytes(x: Record): (r: bytes)
    requires RecordFits(x)
    ensures |r| == 23
  {
    [1] + GeneralBytes(x.general) + FormatBytes(x.format) + LayersBytes(x.layers) + [|x.arrays| % 256]
  }

  function RecordBytes(x: Record): bytes
    requires RecordFits(x)
  {
    FixedBytes(x) + ArraysBytes(x.arrays)
  }

  // ---------------------------------------------------------------- size

  method SizeOfNalus(nalus: seq<bytes>) returns (size: nat)
    ensures size == |NalusBytes(nalus)|
  {
    hide NalusBytes;
    NoNalus();
    size := 0;
    for i := 0 to |nalus|
      invariant size == |NalusBytes(nalus[..i])|
    {
      assert nalus[..i + 1] == nalus[..i] + [nalus[i]];
      NalusBytesSnoc(nalus[..i], nalus[i]);
      size := size + 2 + |nalus[i]|;
    }
    assert nalus[..|nalus|] == nalus;
  }

  /** The size function is the number of bytes written. */
  method SizeOf(x: Record) returns (size: nat)
    requires RecordFits(x)
    ensures size == |RecordBytes(x)|
  {
    hide ArraysBytes, ArrayBytes, FixedBytes, GeneralFits, FormatFits, LayersFit;
    NoArrays();
    size := 1 + 1 + 4 + 6 + 1 + 2 + 1 + 1 + 1 + 1 + 2 + 1 + 1;
    for i := 0 to |x.arrays|
      invariant ArraysFit(x.arrays[..i]) && size == 23 + |ArraysBytes(x.arrays[..i])|
    {
      assert x.arrays[..i + 1] == x.arrays[..i] + [x.arrays[i]];
      ArraysBytesSnoc(x.arrays[..i], x.arrays[i]);
      ArrayWidth(x.arrays[i]);
      var n := SizeOfNalus(x.arrays[i].nalus);
      size := size + 1 + 2 + n;
    }
    assert x.arrays[..|x.arrays|] == x.arrays;
  }

  lemma {:induction false} ArrayWidth(a: NaluArray)
    requires a.nalType < 64
    ensures |ArrayBytes(a)| == 3 + |NalusBytes(a.nalus)|
  {}

  lemma {:induction false} NoNalus()
    ensures NalusBytes([]) == []
  {}

  lemma {:induction false} NoArrays()
    ensures ArraysFit([]) && ArraysBytes([]) == []
  {}

  lemma {:induction false} NalusBytesSnoc(nalus: seq<bytes>, x: bytes)
    ensures NalusBytes(nalus + [x]) == NalusBytes(nalus) + NaluBytes(x)
  {
    hide NaluBytes;
    if nalus == [] {
      assert nalus + [x] == [x] && [x][1..] == [];
    } else {
      assert (nalus + [x])[1..] == nalus[1..] + [x];
      NalusBytesSnoc(nalus[1..], x);
    }
  }

  lemma {:induction false} ArraysBytesSnoc(arrays: seq<NaluArray>, a: NaluArray)
    requires ArraysFit(arrays) && a.nalType < 64
    ensures ArraysFit(arrays + [a]) && ArraysBytes(arrays + [a]) == ArraysBytes(arrays) + ArrayBytes(a)
  {
    hide ArrayBytes;
    if arrays == [] {
      assert arrays + [a] == [a] && [a][1..] == [];
    } else {
      assert (arrays + [a])[1..] == arrays[1..] + [a];
      ArraysBytesSnoc(arrays[1..], a);
    }
  }

  // ---------------------------------------------------------------- writing

  /** A bit writer that holds whole bytes. */
  ghost predicate Holds(w: BitWriter, b: bytes)
    reads w
  {
    w.Valid() && w.Contents() == BitsOf(b)
  }

  lemma {:induction false} HoldsMore(b: bytes, x: bytes, c: bits)
    requires c == BitsOf(b) + BitsOf(x)
    ensures c == BitsOf(b + x)
  {
    BitsOfAppend(b, x);
  }

  method MuxBytes(w: BitWriter, x: bytes, ghost b: bytes)
    requires Holds(w, b)
    modifies w
    ensures Holds(w, b + x)
  {
    hide BitsOf, BitWriter.Valid, BitWriter.Contents;
    w.Write(x);
    HoldsMore(b, x, w.Contents());
  }

  /** Two fields that fill a byte. */
  method MuxPair(w: BitWriter, x: byte, i: byte, y: byte, j: byte, ghost b: bytes) returns (ok: bool)
    requires Holds(w, b) && i + j == 8
    modifies w
    ensures ok <==> x < Pow2(i) && y < Pow2(j)
    ensures ok ==> x * Pow2(j) + y < 256 && Holds(w, b + [x * Pow2(j) + y])
  {
    hide BitsOf, Binary, Pow2, BitWriter.Valid, BitWriter.Contents;
    ok := w.WriteBits(x, i);
    if !ok {
      return;
    }
    ok := w.WriteBits(y, j);
    if !ok {
      return;
    }
    PairBits(x, i, y, j);
    assert BitsOf(b) + Binary(x, i) + Binary(y, j) == BitsOf(b) + (Binary(x, i) + Binary(y, j));
    HoldsMore(b, [x * Pow2(j) + y], w.Contents());
  }

  lemma {:induction false} PairBits(x: byte, i: byte, y: byte, j: byte)
    requires i + j == 8 && x < Pow2(i) && y < Pow2(j)
    ensures x * Pow2(j) + y < 256 && Binary(x, i) + Binary(y, j) == BitsOf([x * Pow2(j) + y])
  {
    hide BitsOf, Binary, Pow2;
    Pow2Add(i, j);
    Pow2Of8();
    InRange(x, y, Pow2(i), Pow2(j));
    BinaryJoin(x, i, y, j);
    BitsOfByte(x * Pow2(j) + y);
  }

  lemma {:induction false} InRange(x: nat, y: nat, m: nat, n: nat)
    requires x < m && y < n
    ensures x * n + y < m * n
  {
    var k := m - 1 - x;
    assert m * n == (k + 1 + x) * n == k * n + n + x * n;
  }

  lemma {:induction false} ProfileBits(x: byte, t: bool, y: byte)
    requires x < 4 && y < 32
    ensures Binary(x, 2) + [t] + Binary(y, 5) == BitsOf([x * 64 + Bit(t) * 32 + y])
  {
    hide Binary, Pow2, BitsOf;
    Pow2Of8();
    BinaryOfBit(t);
    BinaryJoin(x, 2, Bit(t), 1);
    BinaryJoin(x * 2 + Bit(t), 3, y, 5);
    BitsOfByte(x * 64 + Bit(t) * 32 + y);
  }

  method MuxProfile(w: BitWriter, x: byte, t: bool, y: byte, ghost b: bytes) returns (ok: bool)
    requires Holds(w, b)
    modifies w
    ensures ok <==> x < 4 && y < 32
    ensures ok ==> Holds(w, b + [x * 64 + Bit(t) * 32 + y])
  {
    hide BitsOf, Binary, Pow2, BitWriter.Valid, BitWriter.Contents;
    Pow2Of8();
    ok := w.WriteBits(x, 2);
    if !ok {
      return;
    }
    w.WriteBit(t);
    ok := w.WriteBits(y, 5);
    if !ok {
      return;
    }
    ProfileBits(x, t, y);
    assert BitsOf(b) + Binary(x, 2) + [t] + Binary(y, 5) == BitsOf(b) + (Binary(x, 2) + [t] + Binary(y, 5));
    HoldsMore(b, [x * 64 + Bit(t) * 32 + y], w.Contents());
  }

  /** Constraint flags of more than 48 bits panic. */
  method MuxGeneral(w: BitWriter, g: General, ghost b: bytes) returns (r: Outcome<()>)
    requires Holds(w, b)
    modifies w
    ensures r.Done? <==> GeneralFits(g)
    ensures r.Done? ==> Holds(w, b + GeneralBytes(g))
    ensures r.Rejected? <==> !ProfileFits(g)
  {
    hide Holds, U16Bytes, U32Bytes, Pow2;
    var ok := MuxProfile(w, g.profileSpace, g.tierFlag, g.profileIdc, b);
    if !ok {
      return Rejected;
    }
    ghost var first: bytes := [g.profileSpace * 64 + Bit(g.tierFlag) * 32 + g.profileIdc];
    MuxBytes(w, U32Bytes(g.compatibilityFlags), b + first);
    if g.constraintFlags >= 0x1_0000_0000_0000 {
      return Panicked;
    }
    MuxBytes(w, U48Bytes(g.constraintFlags), b + first + U32Bytes(g.compatibilityFlags));
    MuxBytes(w, [g.levelIdc], b + first + U32Bytes(g.compatibilityFlags) + U48Bytes(g.constraintFlags));
    assert b + first + U32Bytes(g.compatibilityFlags) + U48Bytes(g.constraintFlags) + [g.levelIdc]
        == b + GeneralBytes(g);
    return Done(());
  }

  lemma {:induction false} WideBits(m: u16)
    requires m < 4096
    ensures Binary(15, 4) + Binary(m, 12) == BitsOf([0xF0 + m / 256, m % 256])
  {
    hide Binary, Pow2, BitsOf;
    Pow2Of8();
    Pow2Add(8, 4);
    BinaryJoin(15, 4, m, 12);
    BinaryJoin(0xF0 + m / 256, 8, m % 256, 8);
    BitsOfByte(0xF0 + m / 256);
    BitsOfByte(m % 256);
    BitsOfAppend([0xF0 + m / 256], [m % 256]);
    assert [0xF0 + m / 256] + [m % 256] == [0xF0 + m / 256, m % 256];
  }

  method MuxSegmentation(w: BitWriter, m: u16, ghost b: bytes) returns (ok: bool)
    requires Holds(w, b)
    modifies w
    ensures ok <==> m < 4096
    ensures ok ==> Holds(w, b + [0xF0 + m / 256, m % 256])
  {
    hide BitsOf, Binary, Pow2, BitWriter.Valid, BitWriter.Contents;
    Pow2Of8();
    Pow2Add(8, 4);
    ok := w.WriteBits(15, 4);
    ok := w.WriteBits(m, 12);
    if !ok {
      return;
    }
    WideBits(m);
    assert BitsOf(b) + Binary(15, 4) + Binary(m, 12) == BitsOf(b) + (Binary(15, 4) + Binary(m, 12));
    HoldsMore(b, [0xF0 + m / 256, m % 256], w.Contents());
  }

  method MuxFormat(w: BitWriter, f: Format, ghost b: bytes) returns (ok: bool)
    requires Holds(w, b)
    modifies w
    ensures ok <==> FormatFits(f)
    ensures ok ==> Holds(w, b + FormatBytes(f))
  {
    hide Holds, Pow2;
    Pow2Of8();
    ghost var c := b;
    ok := MuxSegmentation(w, f.minSpatialSegmentation, c);
    if !ok {
      return;
    }
    c := c + [0xF0 + f.minSpatialSegmentation / 256, f.minSpatialSegmentation % 256];
    ok := MuxPair(w, 63, 6, f.parallelism, 2, c);
    if !ok {
      return;
    }
    c := c + [0xFC + f.parallelism];
    ok := MuxPair(w, 63, 6, f.chromaFormat, 2, c);
    if !ok {
      return;
    }
    c := c + [0xFC + f.chromaFormat];
    ok := MuxPair(w, 31, 5, f.lumaDepth, 3, c);
    if !ok {
      return;
    }
    c := c + [0xF8 + f.lumaDepth];
    ok := MuxPair(w, 31, 5, f.chromaDepth, 3, c);
    if !ok {
      return;
    }
    assert c + [0xF8 + f.chromaDepth] == b + FormatBytes(f);
  }

  lemma {:induction false} LayersBits(l: Layers)
    requires LayersFit(l)
    ensures Binary(l.constantFrameRate, 2) + Binary(LayersToByte(l.temporalLayers), 3) + [l.temporalIdNested]
            + Binary(l.lengthSizeMinusOne, 2) == BitsOf([LayersByte(l)])
  {
    hide Binary, Pow2, BitsOf;
    Pow2Of8();
    var x, y, z, u := l.constantFrameRate, LayersToByte(l.temporalLayers), Bit(l.temporalIdNested), l.lengthSizeMinusOne;
    BinaryOfBit(l.temporalIdNested);
    BinaryJoin(x, 2, y, 3);
    BinaryJoin(x * 8 + y, 5, z, 1);
    BinaryJoin(x * 16 + y * 2 + z, 6, u, 2);
    BitsOfByte(LayersByte(l));
  }

  method MuxRates(w: BitWriter, l: Layers, ghost b: bytes) returns (ok: bool)
    requires Holds(w, b) && RateIsKnown(l.constantFrameRate)
    modifies w
    ensures ok <==> LayersFit(l)
    ensures ok ==> Holds(w, b + [LayersByte(l)])
  {
    hide BitsOf, Binary, Pow2, LayersByte, BitWriter.Valid, BitWriter.Contents;
    Pow2Of8();
    ok := w.WriteBits(l.constantFrameRate, 2);
    ok := w.WriteBits(LayersToByte(l.temporalLayers), 3);
    if !ok {
      return;
    }
    w.WriteBit(l.temporalIdNested);
    ok := w.WriteBits(l.lengthSizeMinusOne, 2);
    if !ok {
      return;
    }
    LayersBits(l);
    ghost var x, y := Binary(l.constantFrameRate, 2), Binary(LayersToByte(l.temporalLayers), 3);
    ghost var z := Binary(l.lengthSizeMinusOne, 2);
    assert BitsOf(b) + x + y + [l.temporalIdNested] + z == BitsOf(b) + (x + y + [l.temporalIdNested] + z);
    HoldsMore(b, [LayersByte(l)], w.Contents());
  }

  method MuxLayers(w: BitWriter, l: Layers, ghost b: bytes) returns (ok: bool)
    requires Holds(w, b) && RateIsKnown(l.constantFrameRate)
    modifies w
    ensures ok <==> LayersFit(l)
    ensures ok ==> Holds(w, b + LayersBytes(l))
  {
    hide Holds, U16Bytes, LayersByte, LayersFit;
    MuxBytes(w, U16Bytes(l.avgFrameRate), b);
    ok := MuxRates(w, l, b + U16Bytes(l.avgFrameRate));
    if ok {
      assert b + U16Bytes(l.avgFrameRate) + [LayersByte(l)] == b + LayersBytes(l);
    }
  }

  lemma {:induction false} TypeBits(c: bool, t: byte)
    requires t < 64
    ensures [c] + Binary(0, 1) + Binary(t, 6) == BitsOf([Bit(c) * 128 + t])
  {
    hide Binary, Pow2, BitsOf;
    Pow2Of8();
    BinaryOfBit(c);
    BinaryJoin(Bit(c), 1, 0, 1);
    BinaryJoin(Bit(c) * 2, 2, t, 6);
    BitsOfByte(Bit(c) * 128 + t);
  }

  method MuxType(w: BitWriter, c: bool, t: byte, ghost b: bytes) returns (ok: bool)
    requires Holds(w, b)
    modifies w
    ensures ok <==> t < 64
    ensures ok ==> Holds(w, b + [Bit(c) * 128 + t])
  {
    hide BitsOf, Binary, Pow2, BitWriter.Valid, BitWriter.Contents;
    Pow2Of8();
    w.WriteBit(c);
    ok := w.WriteBits(0, 1);
    ok := w.WriteBits(t, 6);
    if !ok {
      return;
    }
    TypeBits(c, t);
    assert BitsOf(b) + [c] + Binary(0, 1) + Binary(t, 6) == BitsOf(b) + ([c] + Binary(0, 1) + Binary(t, 6));
    HoldsMore(b, [Bit(c) * 128 + t], w.Contents());
  }

  method MuxNalus(w: BitWriter, nalus: seq<bytes>, ghost b: bytes)
    requires Holds(w, b)
    modifies w
    ensures Holds(w, b + NalusBytes(nalus))
  {
    hide Holds, NalusBytes, U16Bytes;
    NoNalus();
    assert b + [] == b;
    for i := 0 to |nalus|
      invariant Holds(w, b + NalusBytes(nalus[..i]))
    {
      assert nalus[..i + 1] == nalus[..i] + [nalus[i]];
      NalusBytesSnoc(nalus[..i], nalus[i]);
      ghost var c, length := b + NalusBytes(nalus[..i]), U16Bytes(|nalus[i]| % 0x1_0000);
      MuxBytes(w, U16Bytes(|nalus[i]| % 0x1_0000), c);
      MuxBytes(w, nalus[i], c + length);
      assert c + length + nalus[i] == b + (NalusBytes(nalus[..i]) + (length + nalus[i]));
    }
    assert nalus[..|nalus|] == nalus;
  }

  method MuxArray(w: BitWriter, a: NaluArray, ghost b: bytes) returns (ok: bool)
    requires Holds(w, b)
    modifies w
    ensures ok <==> a.nalType < 64
    ensures ok ==> Holds(w, b + ArrayBytes(a))
  {
    hide Holds, NalusBytes, U16Bytes;
    ok := MuxType(w, a.completeness, a.nalType, b);
    if !ok {
      return;
    }
    ghost var head: bytes := [Bit(a.completeness) * 128 + a.nalType];
    MuxBytes(w, U16Bytes(|a.nalus| % 0x1_0000), b + head);
    MuxNalus(w, a.nalus, b + head + U16Bytes(|a.nalus| % 0x1_0000));
    assert b + head + U16Bytes(|a.nalus| % 0x1_0000) + NalusBytes(a.nalus) == b + ArrayBytes(a);
  }

  method MuxArrays(w: BitWriter, arrays: seq<NaluArray>, ghost b: bytes) returns (ok: bool)
    requires Holds(w, b)
    modifies w
    ensures ok <==> ArraysFit(arrays)
    ensures ok ==> Holds(w, b + ArraysBytes(arrays))
  {
    hide Holds, ArraysBytes, ArrayBytes;
    NoArrays();
    assert b + [] == b;
    for i := 0 to |arrays|
      invariant ArraysFit(arrays[..i]) && Holds(w, b + ArraysBytes(arrays[..i]))
    {
      ok := MuxArray(w, arrays[i], b + ArraysBytes(arrays[..i]));
      if !ok {
        return;
      }
      assert arrays[..i + 1] == arrays[..i] + [arrays[i]];
      ArraysBytesSnoc(arrays[..i], arrays[i]);
      assert b + ArraysBytes(arrays[..i]) + ArrayBytes(arrays[i]) == b + ArraysBytes(arrays[..i + 1]);
    }
    assert arrays[..|arrays|] == arrays;
    return true;
  }

  /** The whole record. A frame rate code outside its enumeration is not a record to begin with. */
  method Mux(x: Record) returns (r: Outcome<bytes>)
    requires RateIsKnown(x.layers.constantFrameRate)
    ensures r == if RecordFits(x) then Done(RecordBytes(x))
                 else if ProfileFits(x.general) && !GeneralFits(x.general) then Panicked
                 else Rejected
  {
    hide BitsOf, GeneralBytes, FormatBytes, LayersBytes, ArraysBytes, GeneralFits, FormatFits, LayersFit, ArraysFit, ProfileFits;
    hide BitWriter.Valid, BitWriter.Contents;
    var w := new BitWriter();
    NoBits();
    assert Holds(w, []);
    hide Holds;
    MuxBytes(w, [1], []);
    ghost var c: bytes := [1];
    assert [] + [1] == c;
    var g := MuxGeneral(w, x.general, c);
    match g {
      case Rejected => return Rejected;
      case Panicked => return Panicked;
      case Done(_) =>
    }
    c := c + GeneralBytes(x.general);
    var ok := MuxFormat(w, x.format, c);
    if !ok {
      return Rejected;
    }
    c := c + FormatBytes(x.format);
    ok := MuxLayers(w, x.layers, c);
    if !ok {
      return Rejected;
    }
    c := c + LayersBytes(x.layers);
    MuxBytes(w, [|x.arrays| % 256], c);
    c := c + [|x.arrays| % 256];
    ok := MuxArrays(w, x.arrays, c);
    if !ok {
      return Rejected;
    }
    assert c == FixedBytes(x);
    HoldsIs(w, c + ArraysBytes(x.arrays));
    var out := Finish(w, c + ArraysBytes(x.arrays));
    return Done(out.value);
  }

  lemma {:induction false} HoldsIs(w: BitWriter, b: bytes)
    requires Holds(w, b)
    ensures w.Valid() && w.Contents() == BitsOf(b)
  {}

  // ---------------------------------------------------------------- round trip

  predicate NalusSurvive(nalus: seq<bytes>) {
    |nalus| < 0x1_0000 && forall i :: 0 <= i < |nalus| ==> |nalus[i]| < 0x1_0000
  }

  predicate ArraySurvives(a: NaluArray) { Admitted(a.nalType) && NalusSurvive(a.nalus) }

  /** Not zero or one in the guise of a count. */
  predicate CanonicalLayers(n: NumTemporalLayers) { LayersFromByte(LayersToByte(n)) == n }

  /** What a record must be to come back. */
  predicate Survives(x: Record) {
    && CanonicalLayers(x.layers.temporalLayers)
    && x.layers.lengthSizeMinusOne != 2 && |x.arrays| < 256
    && forall i :: 0 <= i < |x.arrays| ==> ArraySurvives(x.arrays[i])
  }

  lemma {:induction false} NaluReads(before: bytes, nalu: bytes, after: bytes)
    requires |nalu| < 0x1_0000
    ensures NaluAt(before + NaluBytes(nalu) + after, |before|) == Some(At(nalu, |before| + |NaluBytes(nalu)|))
  {
    var s, n := before + NaluBytes(nalu) + after, |nalu|;
    assert n % 0x1_0000 == n;
    U16BytesValue(n);
    hide U16Bytes, U16;
    var p := |before|;
    assert s[p] == U16Bytes(n)[0] && s[p + 1] == U16Bytes(n)[1];
    assert s[p + 2..p + 2 + n] == nalu;
  }

  lemma {:induction false} NalusRead(before: bytes, nalus: seq<bytes>, after: bytes)
    requires forall i :: 0 <= i < |nalus| ==> |nalus[i]| < 0x1_0000
    ensures NalusFrom(before + NalusBytes(nalus) + after, |before|, |nalus|) ==
            Some(At(nalus, |before| + |NalusBytes(nalus)|))
    decreases |nalus|
  {
    hide NaluAt, NaluBytes;
    if nalus != [] {
      var x, rest := nalus[0], nalus[1..];
      var b, c := NaluBytes(x), NalusBytes(rest);
      assert before + NalusBytes(nalus) + after == before + b + (c + after);
      NaluReads(before, x, c + after);
      assert before + b + (c + after) == (before + b) + c + after;
      NalusRead(before + b, rest, after);
      assert [x] + rest == nalus;
    }
  }

  lemma {:induction false} ArrayReads(before: bytes, a: NaluArray, after: bytes)
    requires ArraySurvives(a)
    ensures a.nalType < 64
    ensures ArrayAt(before + ArrayBytes(a) + after, |before|) == Done(At(a, |before| + |ArrayBytes(a)|))
  {
    hide *;
    AdmittedIsSmall(a);
    ArrayLayout(before, a, after);
    NalusRead(before + ArrayHead(a), a.nalus, after);
    ArrayIs(before + ArrayBytes(a) + after, |before|, a, |before| + |ArrayBytes(a)|);
  }

  function ArrayHead(a: NaluArray): (r: bytes)
    requires a.nalType < 64
    ensures |r| == 3
  {
    [Bit(a.completeness) * 128 + a.nalType] + U16Bytes(|a.nalus| % 0x1_0000)
  }

  lemma {:induction false} AdmittedIsSmall(a: NaluArray)
    requires ArraySurvives(a)
    ensures a.nalType < 64 && Admitted(a.nalType) && |a.nalus| < 0x1_0000
    ensures forall i :: 0 <= i < |a.nalus| ==> |a.nalus[i]| < 0x1_0000
  {}

  lemma {:induction false} ArrayLayout(before: bytes, a: NaluArray, after: bytes)
    requires a.nalType < 64 && |a.nalus| < 0x1_0000
    ensures var s, p := before + ArrayBytes(a) + after, |before|;
            && s == before + ArrayHead(a) + NalusBytes(a.nalus) + after
            && |s| >= p + 3 && |ArrayBytes(a)| == 3 + |NalusBytes(a.nalus)|
            && (s[p] >= 128) == a.completeness && s[p] % 64 == a.nalType && U16(s[p + 1], s[p + 2]) == |a.nalus|
  {
    hide *;
    ArrayHeadIs(a);
    var s, p, h := before + ArrayBytes(a) + after, |before|, ArrayHead(a);
    assert s == before + h + NalusBytes(a.nalus) + after;
    assert s[p] == h[0] && s[p + 1] == h[1] && s[p + 2] == h[2];
  }

  lemma {:induction false} ArrayHeadIs(a: NaluArray)
    requires a.nalType < 64 && |a.nalus| < 0x1_0000
    ensures ArrayBytes(a) == ArrayHead(a) + NalusBytes(a.nalus)
    ensures var h := ArrayHead(a); (h[0] >= 128) == a.completeness && h[0] % 64 == a.nalType && U16(h[1], h[2]) == |a.nalus|
  {
    hide NalusBytes, U16Bytes, U16, Bit;
    assert |a.nalus| % 0x1_0000 == |a.nalus|;
    U16BytesValue(|a.nalus|);
    TypeNumbers(a.completeness, a.nalType);
  }

  lemma {:induction false} ArrayIs(data: bytes, p: nat, a: NaluArray, end: nat)
    requires p + 3 <= |data| && Admitted(a.nalType) && data[p] % 64 == a.nalType
    requires (data[p] >= 128) == a.completeness && U16(data[p + 1], data[p + 2]) == |a.nalus|
    requires NalusFrom(data, p + 3, |a.nalus|) == Some(At(a.nalus, end))
    ensures ArrayAt(data, p) == Done(At(a, end))
  {
    hide NalusFrom, U16;
  }

  lemma {:induction false} ArraysRead(before: bytes, arrays: seq<NaluArray>, after: bytes)
    requires forall i :: 0 <= i < |arrays| ==> ArraySurvives(arrays[i])
    requires ArraysFit(arrays)
    ensures ArraysFrom(before + ArraysBytes(arrays) + after, |before|, |arrays|) ==
            Done(At(arrays, |before| + |ArraysBytes(arrays)|))
    decreases |arrays|
  {
    hide ArrayAt, ArrayBytes, ArraySurvives;
    if arrays != [] {
      var x, rest := arrays[0], arrays[1..];
      assert ArraySurvives(x);
      var b, c := ArrayBytes(x), ArraysBytes(rest);
      assert before + ArraysBytes(arrays) + after == before + b + (c + after);
      ArrayReads(before, x, c + after);
      assert before + b + (c + after) == (before + b) + c + after;
      ArraysRead(before + b, rest, after);
      assert [x] + rest == arrays;
    }
  }

  lemma {:induction false} GeneralRoundTrip(g: General)
    requires GeneralFits(g)
    ensures GeneralOf(GeneralBytes(g)) == g
  {
    FlagsRoundTrip(g.compatibilityFlags, g.constraintFlags);
    FirstByte(g.profileSpace, Bit(g.tierFlag), g.profileIdc);
    hide U32Bytes, U48Bytes, FlagsOf, Bit;
    var b := GeneralBytes(g);
    assert b[1..11] == U32Bytes(g.compatibilityFlags) + U48Bytes(g.constraintFlags);
    BitOf(g.tierFlag);
  }

  lemma {:induction false} BitOf(b: bool)
    ensures Bit(b) < 2 && (Bit(b) == 1) == b
  {}

  lemma {:induction false} FlagsRoundTrip(c: u32, d: u64)
    requires d < 0x1_0000_0000_0000
    ensures FlagsOf(U32Bytes(c) + U48Bytes(d)) == (c, d)
  {
    U32BytesValue(c);
    U16BytesValue(d / 0x1_0000_0000);
    U32BytesValue(d % 0x1_0000_0000);
    hide U32Bytes, U16Bytes, U32, U16;
    var b, x, y, z := U32Bytes(c) + U48Bytes(d), U32Bytes(c), U16Bytes(d / 0x1_0000_0000), U32Bytes(d % 0x1_0000_0000);
    assert b[0] == x[0] && b[1] == x[1] && b[2] == x[2] && b[3] == x[3] && b[4] == y[0] && b[5] == y[1];
    assert b[6] == z[0] && b[7] == z[1] && b[8] == z[2] && b[9] == z[3];
  }

  lemma {:induction false} FirstByte(x: nat, t: nat, y: nat)
    requires x < 4 && t < 2 && y < 32
    ensures var b := x * 64 + t * 32 + y; b / 64 == x && b / 32 % 2 == t && b % 32 == y
  {}

  lemma {:induction false} FormatRoundTrip(f: Format)
    requires FormatFits(f)
    ensures FormatOf(FormatBytes(f)) == f
  {
    Segmentation(f.minSpatialSegmentation);
    LowBits(f.parallelism, f.lumaDepth);
    LowBits(f.chromaFormat, f.chromaDepth);
    hide U16;
  }

  lemma {:induction false} Segmentation(m: u16)
    requires m < 4096
    ensures U16((0xF0 + m / 256) % 16, m % 256) == m
  {
    assert (0xF0 + m / 256) % 16 == m / 256;
  }

  lemma {:induction false} LowBits(x: nat, y: nat)
    requires x < 4 && y < 8
    ensures (0xFC + x) % 4 == x && (0xF8 + y) % 8 == y
  {}

  lemma {:induction false} TypeNumbers(c: bool, t: nat)
    requires t < 64
    ensures var b := Bit(c) * 128 + t; (b >= 128) == c && b % 64 == t
  {}

  lemma {:induction false} LayersRoundTrip(l: Layers)
    requires LayersFit(l)
    ensures LayersOf(LayersBytes(l)) == l.(temporalLayers := LayersFromByte(LayersToByte(l.temporalLayers)))
  {
    U16BytesValue(l.avgFrameRate);
    hide U16Bytes, U16;
    var b, y := LayersBytes(l), U16Bytes(l.avgFrameRate);
    assert b[0] == y[0] && b[1] == y[1] && b[2] == LayersByte(l);
    LastByte(l.constantFrameRate, LayersToByte(l.temporalLayers), Bit(l.temporalIdNested), l.lengthSizeMinusOne);
  }

  lemma {:induction false} LastByte(x: nat, y: nat, z: nat, u: nat)
    requires x < 4 && y < 8 && z < 2 && u < 4
    ensures var b := x * 64 + y * 8 + z * 4 + u; b / 64 == x && b / 8 % 8 == y && b / 4 % 2 == z && b % 4 == u
  {}

  lemma {:induction false} RecordReads(x: Record, after: bytes)
    requires RecordFits(x) && Survives(x)
    ensures RecordOf(RecordBytes(x) + after) == Done(x)
  {
    hide *;
    FitsAndSurvives(x);
    GeneralRoundTrip(x.general);
    FormatRoundTrip(x.format);
    LayersRoundTrip(x.layers);
    LayersByteIs(x.layers);
    ArraysRead(FixedBytes(x), x.arrays, after);
    FixedParts(x, after);
    RecordIs(RecordBytes(x) + after, x.arrays, |FixedBytes(x)| + |ArraysBytes(x.arrays)|);
  }

  lemma {:induction false} FitsAndSurvives(x: Record)
    requires RecordFits(x) && Survives(x)
    ensures GeneralFits(x.general) && FormatFits(x.format) && LayersFit(x.layers) && ArraysFit(x.arrays)
    ensures x.layers.lengthSizeMinusOne != 2 && |x.arrays| < 256 && |x.arrays| % 256 == |x.arrays|
    ensures LayersFromByte(LayersToByte(x.layers.temporalLayers)) == x.layers.temporalLayers
    ensures forall i :: 0 <= i < |x.arrays| ==> ArraySurvives(x.arrays[i])
    ensures RecordBytes(x) == FixedBytes(x) + ArraysBytes(x.arrays)
  {
    hide GeneralFits, FormatFits, LayersFit, ArraysFit, ArraySurvives, FixedBytes, ArraysBytes;
  }

  lemma {:induction false} LayersByteIs(l: Layers)
    requires LayersFit(l)
    ensures var b := LayersBytes(l)[2]; b % 4 == l.lengthSizeMinusOne && RateIsKnown(b / 64)
  {
    hide U16Bytes;
    assert LayersBytes(l)[2] == LayersByte(l);
    LastByte(l.constantFrameRate, LayersToByte(l.temporalLayers), Bit(l.temporalIdNested), l.lengthSizeMinusOne);
  }

  lemma {:induction false} RecordIs(data: bytes, arrays: seq<NaluArray>, end: nat)
    requires |data| >= 23 && data[0] == 1 && data[21] % 4 != 2 && RateIsKnown(data[21] / 64)
    requires ArraysFrom(data, 23, data[22]) == Done(At(arrays, end))
    ensures RecordOf(data) ==
            Done(Record(GeneralOf(data[1..13]), FormatOf(data[13..19]), LayersOf(data[19..22]), arrays))
  {
    hide ArraysFrom, GeneralOf, FormatOf, LayersOf;
  }

  lemma {:induction false} FixedParts(x: Record, after: bytes)
    requires RecordFits(x)
    ensures var s := RecordBytes(x) + after;
            && |s| >= 23 && s[0] == 1 && s[22] == |x.arrays| % 256
            && s[1..13] == GeneralBytes(x.general) && s[13..19] == FormatBytes(x.format)
            && s[19..22] == LayersBytes(x.layers) && s[21] == LayersBytes(x.layers)[2]
  {
    hide GeneralBytes, FormatBytes, LayersBytes, ArraysBytes;
    var g, f, l := GeneralBytes(x.general), FormatBytes(x.format), LayersBytes(x.layers);
    var s := RecordBytes(x) + after;
    assert s == [1] + (g + (f + (l + ([|x.arrays| % 256] + (ArraysBytes(x.arrays) + after)))));
    assert s[19..22] == l;
    assert s[21] == s[19..22][2];
  }

  lemma {:induction false} NalusFromSurvive(data: bytes, p: nat, n: nat)
    ensures var x := NalusFrom(data, p, n);
            x.Some? ==> |x.value.item| == n && forall i :: 0 <= i < n ==> |x.value.item[i]| < 0x1_0000
    decreases n
  {
    if n > 0 && NaluAt(data, p).Some? {
      NalusFromSurvive(data, NaluAt(data, p).value.next, n - 1);
    }
  }

  lemma {:induction false} ArraysFromSurvive(data: bytes, p: nat, n: nat)
    ensures var x := ArraysFrom(data, p, n);
            x.Done? ==> |x.value.item| == n && forall i :: 0 <= i < n ==> ArraySurvives(x.value.item[i])
    decreases n
  {
    hide ArraySurvives;
    if n > 0 && ArrayAt(data, p).Done? {
      ArrayAtSurvives(data, p);
      hide ArrayAt;
      ArraysFromSurvive(data, ArrayAt(data, p).value.next, n - 1);
    }
  }

  lemma {:induction false} ArrayAtSurvives(data: bytes, p: nat)
    requires ArrayAt(data, p).Done?
    ensures ArraySurvives(ArrayAt(data, p).value.item)
  {
    NalusFromSurvive(data, p + 3, U16(data[p + 1], data[p + 2]));
  }

  /**
   Whatever follows, a written record reads back if and only if its number of layers is canonical, its
   length size is not two, its types are admitted, and its counts and lengths are not cut: fewer than
   256 arrays, 65536 units, 65536 bytes.
   */
  lemma {:induction false} RecordRoundTripExactlyWhen(x: Record, after: bytes)
    requires RecordFits(x)
    ensures RecordOf(RecordBytes(x) + after) == Done(x) <==> Survives(x)
  {
    hide *;
    if Survives(x) {
      RecordReads(x, after);
    } else if RecordOf(RecordBytes(x) + after) == Done(x) {
      ReadRecordSurvives(RecordBytes(x) + after);
    }
  }

  /** Whatever is read from any bytes can be written and read again. */
  lemma {:induction false} ReadRecordSurvives(data: bytes)
    requires RecordOf(data).Done?
    ensures Survives(RecordOf(data).value)
  {
    ArraysFromSurvive(data, 23, data[22]);
    CanonicalAgain(data[21] / 8 % 8);
    hide GeneralOf, FormatOf, ArraysFrom, ArraySurvives, CanonicalLayers, LayersFromByte;
    assert data[19..22][2] == data[21];
  }

  lemma {:induction false} CanonicalAgain(b: byte)
    ensures CanonicalLayers(LayersFromByte(b))
  {}

  /** A count of one is written as one, and one is read as not scalable; a count of zero fares alike. */
  lemma {:induction false} SmallCountIsLost(x: Record, after: bytes)
    requires RecordFits(x) && x.layers.temporalLayers in {Count(0), Count(1)}
    ensures RecordOf(RecordBytes(x) + after) != Done(x)
    ensures Survives(x.(layers := x.layers.(temporalLayers := NotScalable))) && x.layers.temporalLayers == Count(1) ==>
              RecordOf(RecordBytes(x) + after) == Done(x.(layers := x.layers.(temporalLayers := NotScalable)))
  {
    RecordRoundTripExactlyWhen(x, after);
    var y := x.(layers := x.layers.(temporalLayers := NotScalable));
    if x.layers.temporalLayers == Count(1) {
      RecordRoundTripExactlyWhen(y, after);
      hide ArraysBytes, GeneralBytes, FormatBytes, RecordOf;
      assert FixedBytes(x) == FixedBytes(y);
    }
  }

  /** By its type an array is read, rejected or a panic: five types are read, and those without a name panic. */
  lemma {:induction false} ArrayExactlyWhen(before: bytes, a: NaluArray, after: bytes)
    requires a.nalType < 64 && NalusSurvive(a.nalus)
    ensures var r := ArrayAt(before + ArrayBytes(a) + after, |before|);
            && (r == Done(At(a, |before| + |ArrayBytes(a)|)) <==> a.nalType in {32, 33, 34, 39, 40})
            && (r.Panicked? <==> a.nalType >= 48)
            && (r.Rejected? <==> a.nalType < 48 && a.nalType !in {32, 33, 34, 39, 40})
  {
    ArrayLayout(before, a, after);
    hide ArrayBytes, NalusFrom, U16;
    if a.nalType in {32, 33, 34, 39, 40} {
      ArrayReads(before, a, after);
    }
  }

  /** Only records of version 1 that are long enough are read. */
  lemma {:induction false} OnlyVersionOne(data: bytes)
    ensures RecordOf(data).Done? ==>
              |data| >= 23 && data[0] == 1 && RecordOf(data).value.layers.lengthSizeMinusOne != 2
    ensures |data| < 23 || data[0] != 1 ==> RecordOf(data).Rejected?
  {
    hide ArraysFrom, GeneralOf, FormatOf, U16, LayersFromByte;
  }
}
