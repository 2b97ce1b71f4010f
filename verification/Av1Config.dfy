/** The AV1 codec configuration record, in its file-format and its transport-stream variant. */
module Av1Config {
  import opened Bytes
  import opened Bits
  import opened BitIo
  import opened BitFields

  datatype Flags = Flags(
    seqTier0: bool, highBitdepth: bool, twelveBit: bool, monochrome: bool,
    chromaSubsamplingX: bool, chromaSubsamplingY: bool, chromaSamplePosition: byte)

  datatype Record = Record(
    seqProfile: byte, seqLevelIdx0: byte, flags: Flags, hdrWcgIdc: byte,
    initialPresentationDelayMinusOne: Option<byte>, configObu: bytes)

  // ---------------------------------------------------------------- the short way

  /** The units behind the fixed part, without taking it apart. */
  method ConfigObuBytes(data: bytes) returns (r: Option<bytes>)
    ensures r == if |data| >= 4 && data[0] == 0x81 then Some(data[4..]) else None
  {
    if |data| < 4 {
      return None;
    }
    if data[0] / 128 == 0 {
      return None;
    }
    if data[0] % 128 != 1 {
      return None;
    }
    return Some(data[4..]);
  }

  // ---------------------------------------------------------------- reading

  function FlagsOf(b: byte): Flags {
    Flags(b >= 128, b / 64 % 2 == 1, b / 32 % 2 == 1, b / 16 % 2 == 1, b / 8 % 2 == 1, b / 4 % 2 == 1, b % 4)
  }

  function DelayOf(b: byte): Option<byte> {
    if b / 16 % 2 == 1 then Some(b % 16) else None
  }

  function RecordOf(data: bytes, transportStream: bool): Option<Record> {
    if |data| < 4 || data[0] != 0x81 then None
    else
      Some(Record(data[1] / 32, data[1] % 32, FlagsOf(data[2]), if transportStream then data[3] / 64 else 0,
                  DelayOf(data[3]), data[4..]))
  }

  /** Marker and version. */
  method ReadVersion(r: BitReader, ghost p: nat) returns (ok: bool)
    requires AtByte(r, p)
    modifies r
    ensures ok <==> p < |r.data| && r.data[p] == 0x81
    ensures ok ==> AtByte(r, p + 1)
  {
    hide Value, BitsOf, Pow2, BitReader.Valid, BitReader.Position;
    if p < |r.data| {
      Pow2Of8();
      Pow2Step(0);
      FieldBit(r.data, p, 0);
      Field(r.data, p, 1, 8);
    }
    var marker := r.ReadBit();
    if marker != Some(true) {
      return false;
    }
    var version := r.ReadBits(7);
    return version == Some(1);
  }

  method ReadProfile(r: BitReader, ghost p: nat) returns (x: Option<(byte, byte)>)
    requires AtByte(r, p)
    modifies r
    ensures if p < |r.data| then x == Some((r.data[p] / 32, r.data[p] % 32)) && AtByte(r, p + 1) else x == None
  {
    hide Value, BitsOf, Pow2, BitReader.Valid, BitReader.Position;
    if p < |r.data| {
      Pow2Of8();
      Pow2Step(0);
      Field(r.data, p, 0, 3);
      Field(r.data, p, 3, 8);
    }
    var profile := r.ReadBits(3);
    if profile.None? {
      return None;
    }
    var level := r.ReadBits(5);
    return Some((profile.value, level.value));
  }

  lemma {:induction false} FlagFields(data: bytes, p: nat)
    requires p < |data|
    ensures var s, f := BitsOf(data), FlagsOf(data[p]);
            && |s| >= 8 * p + 8
            && s[8 * p] == f.seqTier0 && s[8 * p + 1] == f.highBitdepth && s[8 * p + 2] == f.twelveBit
            && s[8 * p + 3] == f.monochrome && s[8 * p + 4] == f.chromaSubsamplingX
            && s[8 * p + 5] == f.chromaSubsamplingY && Value(s[8 * p + 6..8 * p + 8]) == f.chromaSamplePosition
  {
    hide Value, BitsOf, Pow2;
    Pow2Of8();
    Pow2Step(0);
    FieldBit(data, p, 0);
    FieldBit(data, p, 1);
    FieldBit(data, p, 2);
    FieldBit(data, p, 3);
    FieldBit(data, p, 4);
    FieldBit(data, p, 5);
    Field(data, p, 6, 8);
  }

  method ReadFlags(r: BitReader, ghost p: nat) returns (f: Option<Flags>)
    requires AtByte(r, p)
    modifies r
    ensures if p < |r.data| then f == Some(FlagsOf(r.data[p])) && AtByte(r, p + 1) else f == None
  {
    hide Value, BitsOf, Pow2, FlagsOf, BitReader.Valid, BitReader.Position;
    if p < |r.data| {
      FlagFields(r.data, p);
    }
    var tier := r.ReadBit();
    if tier.None? {
      return None;
    }
    var high := r.ReadBit();
    var twelve := r.ReadBit();
    var mono := r.ReadBit();
    var x := r.ReadBit();
    var y := r.ReadBit();
    var position := r.ReadBits(2);
    return Some(Flags(tier.value, high.value, twelve.value, mono.value, x.value, y.value, position.value));
  }

  lemma {:induction false} DelayFields(data: bytes, p: nat)
    requires p < |data|
    ensures var s, b := BitsOf(data), data[p];
            && |s| >= 8 * p + 8
            && Value(s[8 * p..8 * p + 2]) == b / 64
            && s[8 * p + 3] == (b / 16 % 2 == 1)
            && Value(s[8 * p + 4..8 * p + 8]) == b % 16
  {
    hide Value, BitsOf, Pow2;
    Pow2Of8();
    Pow2Step(0);
    Field(data, p, 0, 2);
    FieldBit(data, p, 3);
    Field(data, p, 4, 8);
  }

  /** The reserved bits are skipped, not read; a skip over the end of the input fails like a read. */
  method ReadDelay(r: BitReader, transportStream: bool, ghost p: nat) returns (x: Option<(byte, Option<byte>)>)
    requires AtByte(r, p)
    modifies r
    ensures if p < |r.data|
            then x == Some((if transportStream then r.data[p] / 64 else 0, DelayOf(r.data[p]))) && AtByte(r, p + 1)
            else x == None
  {
    hide Value, BitsOf, Pow2, BitReader.Position;
    if p < |r.data| {
      DelayFields(r.data, p);
    }
    var hdr: byte := 0;
    if transportStream {
      var idc := r.ReadBits(2);
      if idc.None? {
        return None;
      }
      hdr := idc.value;
      var _ := r.SeekBits(1);
    } else {
      var skipped := r.SeekBits(3);
      if skipped.None? {
        return None;
      }
    }
    var present := r.ReadBit();
    if present.value {
      var delay := r.ReadBits(4);
      return Some((hdr, Some(delay.value)));
    }
    var _ := r.SeekBits(4);
    return Some((hdr, None));
  }

  /** The full way: every field, bit by bit, then the rest of the bytes. */
  method Demux(data: bytes, transportStream: bool) returns (x: Option<Record>)
    ensures x == RecordOf(data, transportStream)
  {
    var r := new BitReader.At(data, 0);
    hide AtByte, BitReader.Valid, BitReader.Position, FlagsOf, DelayOf;
    AtStart(r);
    var version := ReadVersion(r, 0);
    if !version {
      return None;
    }
    var profile := ReadProfile(r, 1);
    if profile.None? {
      return None;
    }
    var flags := ReadFlags(r, 2);
    if flags.None? {
      return None;
    }
    var delay := ReadDelay(r, transportStream, 3);
    if delay.None? {
      return None;
    }
    AtByteIs(r, 4);
    return
      if r.IsAligned() then
        Some(Record(profile.value.0, profile.value.1, flags.value, delay.value.0, delay.value.1, data[r.dataPos..]))
      else None;
  }

  lemma {:induction false} AtStart(r: BitReader)
    requires r.Valid() && r.Position() == 0
    ensures AtByte(r, 0)
  {}

  /** Both ways accept the same records, in both variants, and find the same units. */
  method PeekAgrees(data: bytes, transportStream: bool) returns (peek: Option<bytes>, full: Option<Record>)
    ensures peek.Some? <==> full.Some?
    ensures peek.Some? ==> peek.value == full.value.configObu
    ensures full == RecordOf(data, transportStream)
  {
    peek := ConfigObuBytes(data);
    full := Demux(data, transportStream);
  }

  // ---------------------------------------------------------------- writing

  predicate Fits(x: Record) {
    && x.seqProfile < 8 && x.seqLevelIdx0 < 32 && x.flags.chromaSamplePosition < 4
    && (x.initialPresentationDelayMinusOne.Some? ==> x.initialPresentationDelayMinusOne.value < 16)
  }

  function FlagsByte(f: Flags): byte
    requires f.chromaSamplePosition < 4
  {
    Bit(f.seqTier0) * 128 + Bit(f.highBitdepth) * 64 + Bit(f.twelveBit) * 32 + Bit(f.monochrome) * 16
    + Bit(f.chromaSubsamplingX) * 8 + Bit(f.chromaSubsamplingY) * 4 + f.chromaSamplePosition
  }

  function DelayByte(hdr: byte, transportStream: bool, delay: Option<byte>): byte
    requires delay.Some? ==> delay.value < 16
  {
    (if transportStream then hdr % 4 * 64 else 0) + if delay.Some? then 16 + delay.value else 0
  }

  function RecordBytes(x: Record, transportStream: bool): bytes
    requires Fits(x)
  {
    [0x81, x.seqProfile * 32 + x.seqLevelIdx0, FlagsByte(x.flags),
     DelayByte(x.hdrWcgIdc, transportStream, x.initialPresentationDelayMinusOne)] + x.configObu
  }

  lemma {:induction false} VersionBits()
    ensures [true] + Binary(1, 7) == BitsOf([0x81])
  {
    hide Binary, Pow2, BitsOf;
    Pow2Of8();
    BinaryOfBit(true);
    BinaryJoin(1, 1, 1, 7);
    BitsOfByte(0x81);
  }

  lemma {:induction false} ProfileBits(a: byte, b: byte)
    requires a < 8 && b < 32
    ensures Binary(a, 3) + Binary(b, 5) == BitsOf([a * 32 + b])
  {
    hide Binary, Pow2, BitsOf;
    Pow2Of8();
    BinaryJoin(a, 3, b, 5);
    BitsOfByte(a * 32 + b);
  }

  /** Marker, version, profile and level. */
  method MuxProfile(w: BitWriter, profile: byte, level: byte) returns (ok: bool)
    requires w.Valid() && w.Contents() == []
    modifies w
    ensures w.Valid() && (ok <==> profile < 8 && level < 32)
    ensures ok ==> w.Contents() == BitsOf([0x81, profile * 32 + level])
  {
    hide BitsOf, Binary, Pow2, BitWriter.Valid, BitWriter.Contents;
    Pow2Of8();
    w.WriteBit(true);
    ok := w.WriteBits(1, 7);
    VersionBits();
    assert [] + [true] + Binary(1, 7) == BitsOf([0x81]);
    ok := w.WriteBits(profile, 3);
    if !ok {
      return;
    }
    ok := w.WriteBits(level, 5);
    if !ok {
      return;
    }
    ProfileBits(profile, level);
    BitsOfAppend([0x81], [profile * 32 + level]);
    assert [0x81] + [profile * 32 + level] == [0x81, profile * 32 + level];
    assert BitsOf([0x81]) + Binary(profile, 3) + Binary(level, 5)
        == BitsOf([0x81]) + (Binary(profile, 3) + Binary(level, 5));
  }

  lemma {:induction false} FlagsBits(f: Flags)
    requires f.chromaSamplePosition < 4
    ensures [f.seqTier0, f.highBitdepth, f.twelveBit] + [f.monochrome, f.chromaSubsamplingX, f.chromaSubsamplingY]
            + Binary(f.chromaSamplePosition, 2) == BitsOf([FlagsByte(f)])
  {
    hide Binary, Pow2, BitsOf;
    Pow2Of8();
    var x := Bit(f.seqTier0) * 4 + Bit(f.highBitdepth) * 2 + Bit(f.twelveBit);
    var y := Bit(f.monochrome) * 4 + Bit(f.chromaSubsamplingX) * 2 + Bit(f.chromaSubsamplingY);
    ThreeBits(f.seqTier0, f.highBitdepth, f.twelveBit);
    ThreeBits(f.monochrome, f.chromaSubsamplingX, f.chromaSubsamplingY);
    BinaryJoin(x, 3, y, 3);
    BinaryJoin(x * 8 + y, 6, f.chromaSamplePosition, 2);
    BitsOfByte(x * 32 + y * 4 + f.chromaSamplePosition);
  }

  lemma {:induction false} ThreeBits(a: bool, b: bool, c: bool)
    ensures [a, b, c] == Binary(Bit(a) * 4 + Bit(b) * 2 + Bit(c), 3)
  {
    hide Binary, Pow2;
    Pow2Of8();
    BinaryOfBit(a);
    BinaryOfBit(b);
    BinaryOfBit(c);
    BinaryJoin(Bit(a), 1, Bit(b), 1);
    BinaryJoin(Bit(a) * 2 + Bit(b), 2, Bit(c), 1);
    assert [a, b, c] == [a] + [b] + [c];
  }

  method MuxFlags(w: BitWriter, f: Flags) returns (ok: bool)
    requires w.Valid()
    modifies w
    ensures w.Valid() && (ok <==> f.chromaSamplePosition < 4)
    ensures ok ==> w.Contents() == old(w.Contents()) + BitsOf([FlagsByte(f)])
  {
    hide BitsOf, Binary, Pow2, FlagsByte, BitWriter.Valid, BitWriter.Contents;
    Pow2Of8();
    MuxThree(w, f.seqTier0, f.highBitdepth, f.twelveBit);
    MuxThree(w, f.monochrome, f.chromaSubsamplingX, f.chromaSubsamplingY);
    ok := w.WriteBits(f.chromaSamplePosition, 2);
    if ok {
      FlagsBits(f);
    }
  }

  method MuxThree(w: BitWriter, a: bool, b: bool, c: bool)
    requires w.Valid()
    modifies w
    ensures w.Valid() && w.Contents() == old(w.Contents()) + [a, b, c]
  {
    hide BitWriter.Valid, BitWriter.Contents;
    w.WriteBit(a);
    w.WriteBit(b);
    w.WriteBit(c);
  }

  lemma {:induction false} DelayBits(hdr: byte, present: bool, delay: byte)
    requires hdr < 4 && delay < 16
    ensures Binary(hdr, 2) + Binary(0, 1) + [present] + Binary(delay, 4)
         == BitsOf([hdr * 64 + Bit(present) * 16 + delay])
    ensures Binary(0, 3) + [present] + Binary(delay, 4) == BitsOf([Bit(present) * 16 + delay])
  {
    hide Binary, Pow2, BitsOf;
    Pow2Of8();
    var x := Bit(present);
    BinaryOfBit(present);
    BinaryJoin(hdr, 2, 0, 1);
    BinaryJoin(hdr * 2, 3, x, 1);
    BinaryJoin(hdr * 4 + x, 4, delay, 4);
    BitsOfByte(hdr * 64 + x * 16 + delay);
    BinaryJoin(0, 3, x, 1);
    BinaryJoin(x, 4, delay, 4);
    BitsOfByte(x * 16 + delay);
  }

  method MuxDelay(w: BitWriter, hdr: byte, transportStream: bool, delay: Option<byte>) returns (ok: bool)
    requires w.Valid()
    modifies w
    ensures w.Valid() && (ok <==> (delay.Some? ==> delay.value < 16))
    ensures ok ==> w.Contents() == old(w.Contents()) + BitsOf([DelayByte(hdr, transportStream, delay)])
  {
    hide BitsOf, Binary, Pow2, BitWriter.Valid, BitWriter.Contents;
    Pow2Of8();
    if transportStream {
      var _ := w.WriteBits(hdr % 4, 2);
      var _ := w.WriteBits(0, 1);
    } else {
      var _ := w.WriteBits(0, 3);
    }
    w.WriteBit(delay.Some?);
    var n := if delay.Some? then delay.value else 0;
    ok := w.WriteBits(n, 4);
    if ok {
      DelayBits(hdr % 4, delay.Some?, n);
    }
  }

  method MuxRecord(x: Record, transportStream: bool) returns (r: Option<bytes>)
    ensures if Fits(x) then r == Some(RecordBytes(x, transportStream)) else r == None
  {
    hide BitsOf, FlagsByte, DelayByte, BitWriter.Valid, BitWriter.Contents;
    var w := new BitWriter();
    var ok := MuxProfile(w, x.seqProfile, x.seqLevelIdx0);
    if !ok {
      return None;
    }
    ok := MuxFlags(w, x.flags);
    if !ok {
      return None;
    }
    ok := MuxDelay(w, x.hdrWcgIdc, transportStream, x.initialPresentationDelayMinusOne);
    if !ok {
      return None;
    }
    ghost var a: bytes := [0x81, x.seqProfile * 32 + x.seqLevelIdx0];
    ghost var b: bytes := [FlagsByte(x.flags)];
    ghost var c: bytes := [DelayByte(x.hdrWcgIdc, transportStream, x.initialPresentationDelayMinusOne)];
    BitsOfAppend(a, b);
    BitsOfAppend(a + b, c);
    var fixed := Finish(w, a + b + c);
    assert a + b + c + x.configObu == RecordBytes(x, transportStream);
    return Some(fixed.value + x.configObu);
  }

  lemma {:induction false} SizeIsExact(x: Record, transportStream: bool)
    requires Fits(x)
    ensures |RecordBytes(x, transportStream)| == 4 + |x.configObu|
  {}

  /**
   A written record reads back exactly when its range indication survives: it must be zero in the
   file-format variant, which has no room for it, and have two bits in the other.
   */
  lemma {:induction false} RecordRoundTripExactlyWhen(x: Record, transportStream: bool)
    requires Fits(x)
    ensures RecordOf(RecordBytes(x, transportStream), transportStream) == Some(x)
            <==> if transportStream then x.hdrWcgIdc < 4 else x.hdrWcgIdc == 0
  {
    FlagsRoundTrip(x.flags);
    DelayRoundTrip(x.hdrWcgIdc, transportStream, x.initialPresentationDelayMinusOne);
    hide FlagsOf, FlagsByte, DelayOf, DelayByte;
    assert RecordBytes(x, transportStream)[4..] == x.configObu;
  }

  lemma {:induction false} FlagsRoundTrip(f: Flags)
    requires f.chromaSamplePosition < 4
    ensures FlagsOf(FlagsByte(f)) == f
  {
    hide *;
    var b := FlagsByte(f);
    FlagsBits(f);
    FlagFields([b], 0);
    Pow2Of8();
    ValueOfBinary(f.chromaSamplePosition, 2);
    assert BitsOf([b])[6..8] == Binary(f.chromaSamplePosition, 2);
  }

  lemma {:induction false} DelayRoundTrip(hdr: byte, transportStream: bool, delay: Option<byte>)
    requires delay.Some? ==> delay.value < 16
    ensures var b := DelayByte(hdr, transportStream, delay);
            DelayOf(b) == delay && (transportStream ==> b / 64 == hdr % 4)
  {}

  // ---------------------------------------------------------------- what is read at all

  lemma {:induction false} FlagsAreAllBits(b: byte)
    ensures FlagsByte(FlagsOf(b)) == b
  {
    hide FlagsByte, FlagsOf;
    var c := b / 4;
    TopThree(b);
    assert c == c / 2 * 2 + c % 2 && c / 2 == b / 8;
    assert b / 8 == b / 8 / 2 * 2 + b / 8 % 2 && b / 8 / 2 == b / 16;
    assert b / 16 == b / 16 / 2 * 2 + b / 16 % 2 && b / 16 / 2 == b / 32;
    FlagsAre(b);
  }

  lemma {:induction false} TopThree(b: byte)
    ensures b / 32 == (if b >= 128 then 4 else 0) + b / 64 % 2 * 2 + b / 32 % 2
  {
    assert b / 32 == b / 32 / 2 * 2 + b / 32 % 2 && b / 32 / 2 == b / 64;
  }

  lemma {:induction false} FlagsAre(b: byte)
    ensures FlagsByte(FlagsOf(b)) ==
            (if b >= 128 then 128 else 0) + b / 64 % 2 * 64 + b / 32 % 2 * 32 + b / 16 % 2 * 16
            + b / 8 % 2 * 8 + b / 4 % 2 * 4 + b % 4
  {}

  /** Marker, version, profile and flags must be there as they are written; reserved bits of the fourth byte are free. */
  lemma {:induction false} RecordExactlyWhen(data: bytes, transportStream: bool, x: Record)
    ensures RecordOf(data, transportStream) == Some(x) <==>
            && Fits(x) && x.hdrWcgIdc < (if transportStream then 4 else 1)
            && |data| >= 4 && data[..3] == RecordBytes(x, transportStream)[..3] && data[4..] == x.configObu
            && (transportStream ==> data[3] / 64 == x.hdrWcgIdc)
            && (if x.initialPresentationDelayMinusOne.Some? then data[3] % 32 == 16 + x.initialPresentationDelayMinusOne.value
                else data[3] % 32 < 16)
  {
    if |data| >= 4 {
      FlagsAreAllBits(data[2]);
      if x.flags.chromaSamplePosition < 4 {
        FlagsRoundTrip(x.flags);
      }
      hide FlagsOf, FlagsByte;
      assert data[..3] == [data[0], data[1], data[2]];
      if Fits(x) {
        var w := RecordBytes(x, transportStream);
        assert w[..3] == [0x81, x.seqProfile * 32 + x.seqLevelIdx0, FlagsByte(x.flags)];
      }
    }
  }
}
