/**
 The FLV file format, Adobe Flash Video File Format Specification 10.1, Annex E:
 the 9-byte header (E.2), the 11-byte tag header (E.4.1) and the 4-byte
 PreviousTagSize fields between tags (E.3).
 */
module FlvFraming {
  import opened Bytes

  const FLV_HEADER_SIZE: nat := 9
  const PREV_TAG_SIZE_FIELD_SIZE: nat := 4
  const TAG_HEADER_SIZE: nat := 11
  const MAX_DATA_OFFSET: nat := 64 * 1024
  // The writers' limit is 24 bits; the incremental decoder's sanity limit is one more.
  const MAX_TAG_DATA_SIZE: nat := 0xFF_FFFF
  const DECODER_MAX_TAG_DATA_SIZE: nat := 16 * 1024 * 1024

  datatype FlvTagType = Audio | Video | ScriptData | Unknown(value: byte)
  {
    predicate Known() { !Unknown? }
  }

  function TagTypeFromByte(b: byte): FlvTagType {
    if b == 8 then Audio else if b == 9 then Video else if b == 18 then ScriptData else Unknown(b)
  }

  function TagTypeToByte(t: FlvTagType): byte {
    match t
    case Audio => 8
    case Video => 9
    case ScriptData => 18
    case Unknown(v) => v
  }

  datatype FlvHeader = FlvHeader(version: byte, hasAudio: bool, hasVideo: bool, dataOffset: u32)

  datatype FlvTag = FlvTag(timestampMs: u32, streamId: u32, tagType: FlvTagType, isFiltered: bool, data: bytes)
  {
    function Size(): nat { TAG_HEADER_SIZE + |data| }

    /** The tags an FLV file may hold: a known type, and a payload length that fits in 24 bits. */
    predicate Writable() { tagType.Known() && |data| <= MAX_TAG_DATA_SIZE }
  }

  datatype ParsedTagHeader = ParsedTagHeader(
    tagType: FlvTagType, isFiltered: bool, dataSize: u32, timestampMs: u32, streamId: u32)

  /** True of a byte whose low five bits are a tag type: where a tag may start. */
  predicate IsTagStart(b: byte) {
    b % 0x20 == 8 || b % 0x20 == 9 || b % 0x20 == 18
  }

  function ParseTagHeader(h: bytes): (r: ParsedTagHeader)
    requires |h| >= TAG_HEADER_SIZE
    ensures r.dataSize <= MAX_TAG_DATA_SIZE < DECODER_MAX_TAG_DATA_SIZE
    ensures r.tagType.Known() <==> IsTagStart(h[0])
  {
    ParsedTagHeader(
      TagTypeFromByte(h[0] % 0x20),
      h[0] / 0x20 % 2 == 1,
      U24(h[1], h[2], h[3]),
      U32(h[7], h[4], h[5], h[6]),
      U24(h[8], h[9], h[10]))
  }

  function TagOf(h: ParsedTagHeader, data: bytes): FlvTag {
    FlvTag(h.timestampMs, h.streamId, h.tagType, h.isFiltered, data)
  }

  /** The size of the tag at the head of `w`, when all of it is there. */
  function WholeTag(w: bytes): (r: Option<nat>)
    ensures r.Some? ==> TAG_HEADER_SIZE <= r.value <= |w|
  {
    if |w| < TAG_HEADER_SIZE || |w| < TAG_HEADER_SIZE + ParseTagHeader(w).dataSize then None
    else Some(TAG_HEADER_SIZE + ParseTagHeader(w).dataSize)
  }

  function TagAt(w: bytes): FlvTag
    requires WholeTag(w).Some?
  {
    TagOf(ParseTagHeader(w), w[TAG_HEADER_SIZE..WholeTag(w).value])
  }

  /** The first byte of a tag: the filter bit, OR-ed onto the tag type. */
  function TagTypeByte(t: FlvTagType, isFiltered: bool): byte {
    var v := TagTypeToByte(t);
    if isFiltered && v / 0x20 % 2 == 0 then v + 0x20 else v
  }

  function TagHeaderBytes(t: FlvTagType, isFiltered: bool, dataSize: u32, ts: u32, streamId: u32): (r: bytes)
    requires dataSize <= 0xFF_FFFF && streamId <= 0xFF_FFFF
    ensures |r| == TAG_HEADER_SIZE
  {
    [TagTypeByte(t, isFiltered),
     dataSize / 0x1_0000, dataSize / 0x100 % 0x100, dataSize % 0x100,
     ts / 0x1_0000 % 0x100, ts % 0x1_0000 / 0x100, ts % 0x100, ts / 0x1_0000 / 0x100,
     streamId / 0x1_0000, streamId / 0x100 % 0x100, streamId % 0x100]
  }

  lemma {:induction false} TagHeaderRoundTrip(t: FlvTagType, isFiltered: bool, dataSize: u32, ts: u32, streamId: u32)
    requires t.Known() && dataSize <= 0xFF_FFFF && streamId <= 0xFF_FFFF
    ensures ParseTagHeader(TagHeaderBytes(t, isFiltered, dataSize, ts, streamId))
         == ParsedTagHeader(t, isFiltered, dataSize, ts, streamId)
  {
    U24Digits(dataSize);
    U32Digits(ts);
    U24Digits(streamId);
  }

  /** Flags byte: bit 2 is audio, bit 0 is video. */
  function HeaderFlags(h: FlvHeader): byte {
    (if h.hasVideo then 1 else 0) + (if h.hasAudio then 4 else 0)
  }

  /** Header and PreviousTagSize0, always with the standard DataOffset of 9. */
  function HeaderBytes(h: FlvHeader): (r: bytes)
    ensures |r| == FLV_HEADER_SIZE + PREV_TAG_SIZE_FIELD_SIZE
  {
    [0x46, 0x4C, 0x56, h.version, HeaderFlags(h), 0, 0, 0, 9] + [0, 0, 0, 0]
  }

  /** What both header parsers demand of the nine fixed bytes, apart from DataOffset's upper limit. */
  predicate FixedHeaderOk(w: bytes)
    requires |w| >= FLV_HEADER_SIZE
  {
    && w[0] == 0x46 && w[1] == 0x4C && w[2] == 0x56
    && w[3] == 1
    && (w[4] == 0 || w[4] == 1 || w[4] == 4 || w[4] == 5)     // reserved bits 7..3 and 1 are zero
    && DataOffset(w) >= FLV_HEADER_SIZE
  }

  function DataOffset(w: bytes): u32
    requires |w| >= FLV_HEADER_SIZE
  {
    U32(w[5], w[6], w[7], w[8])
  }

  function HeaderOf(w: bytes): FlvHeader
    requires |w| >= FLV_HEADER_SIZE
  {
    FlvHeader(w[3], w[4] / 4 % 2 == 1, w[4] % 2 == 1, DataOffset(w))
  }

  /** `FlvHeader::parse`: reads the header and skips any extension up to DataOffset. */
  function ParseHeader(w: bytes): (r: Option<FlvHeader>)
    ensures r.Some? ==> FLV_HEADER_SIZE <= r.value.dataOffset <= |w|
  {
    if |w| < FLV_HEADER_SIZE || !FixedHeaderOk(w) then None
    else if DataOffset(w) > MAX_DATA_OFFSET || DataOffset(w) > |w| then None
    else Some(HeaderOf(w))
  }

  lemma {:induction false} HeaderRoundTrip(h: FlvHeader, rest: bytes)
    requires h.version == 1
    ensures ParseHeader(HeaderBytes(h) + rest) == Some(h.(dataOffset := 9))
  {
    var w := HeaderBytes(h) + rest;
    assert w[4] == HeaderFlags(h);
    assert U32(w[5], w[6], w[7], w[8]) == 9;
  }

  /** The five bytes before the offset are those a version-1 header is written with. */
  ghost predicate HasPrefix(w: bytes) {
    |w| >= FLV_HEADER_SIZE && exists h: FlvHeader :: h.version == 1 && HeaderBytes(h)[..5] == w[..5]
  }

  /** What is accepted is what is written, but for an offset that says where the header ends. */
  lemma {:induction false} HeaderExactlyWhen(w: bytes, h: FlvHeader)
    ensures ParseHeader(w) == Some(h) <==>
              && |w| >= FLV_HEADER_SIZE && h.version == 1 && HeaderBytes(h)[..5] == w[..5]
              && h.dataOffset == U32(w[5], w[6], w[7], w[8]) && 9 <= h.dataOffset <= 65536 && h.dataOffset <= |w|
  {
    if |w| >= FLV_HEADER_SIZE {
      var b := HeaderBytes(h)[..5];
      assert b == [0x46, 0x4C, 0x56, h.version, HeaderFlags(h)];
      assert b == w[..5] <==> w[0] == 0x46 && w[1] == 0x4C && w[2] == 0x56 && w[3] == h.version && w[4] == HeaderFlags(h)
      by {
        var v := w[..5];
        assert v == [w[0], w[1], w[2], w[3], w[4]];
      }
      hide U32;
    }
  }

  lemma {:induction false} FixedHeaderExactlyWhen(w: bytes)
    requires |w| >= FLV_HEADER_SIZE
    ensures FixedHeaderOk(w) <==> HasPrefix(w) && U32(w[5], w[6], w[7], w[8]) >= 9
  {
    hide U32;
    var v := w[..5];
    assert v == [w[0], w[1], w[2], w[3], w[4]];
    if FixedHeaderOk(w) {
      var h := FlvHeader(1, w[4] / 4 % 2 == 1, w[4] % 2 == 1, 9);
      assert HeaderBytes(h)[..5] == [0x46, 0x4C, 0x56, 1, HeaderFlags(h)];
      assert HeaderBytes(h)[..5] == v;
    }
    if HasPrefix(w) {
      var h: FlvHeader :| h.version == 1 && HeaderBytes(h)[..5] == w[..5];
      assert HeaderBytes(h)[..5] == [0x46, 0x4C, 0x56, 1, HeaderFlags(h)];
    }
  }

  /** A header is read as a known type and a filter flag exactly when it is one the writer would begin so. */
  lemma {:induction false} TypeExactlyWhen(w: bytes, t: FlvTagType, isFiltered: bool)
    requires |w| >= TAG_HEADER_SIZE && t.Known()
    ensures ParseTagHeader(w).tagType == t && ParseTagHeader(w).isFiltered == isFiltered
            <==> w[0] % 64 == TagTypeByte(t, isFiltered)
    ensures w[0] % 32 == (match t case Audio => 8 case Video => 9 case ScriptData => 18)
            <==> ParseTagHeader(w).tagType == t
    ensures ParseTagHeader(w).isFiltered <==> w[0] % 64 >= 32
  {
    FilterBit(w[0]);
    hide U24, U32;
  }

  lemma {:induction false} FilterBit(b: byte)
    ensures b / 0x20 % 2 == 1 <==> b % 64 >= 32
    ensures b % 64 == b % 32 + if b % 64 >= 32 then 32 else 0
  {}

  /**
   Where the fields stand: the type and filter flag, the size, the low 24 bits of the timestamp and then its
   high eight, and the stream id, each with its high byte first.
   */
  lemma {:induction false} TagHeaderLayout(t: FlvTagType, isFiltered: bool, dataSize: u32, ts: u32, streamId: u32)
    requires t.Known() && dataSize <= 0xFF_FFFF && streamId <= 0xFF_FFFF
    ensures var b := TagHeaderBytes(t, isFiltered, dataSize, ts, streamId);
            && b[0] == (match t case Audio => 8 case Video => 9 case ScriptData => 18) + (if isFiltered then 32 else 0)
            && U24(b[1], b[2], b[3]) == dataSize && U24(b[8], b[9], b[10]) == streamId
            && U24(b[4], b[5], b[6]) == ts % 0x100_0000 && b[7] == ts / 0x100_0000
  {
    U24Digits(dataSize);
    U24Digits(streamId);
    TimeDigits(ts);
    hide U24;
  }

  lemma {:induction false} TimeDigits(ts: u32)
    ensures U24(ts / 0x1_0000 % 0x100, ts % 0x1_0000 / 0x100, ts % 0x100) == ts % 0x100_0000
    ensures ts / 0x1_0000 / 0x100 == ts / 0x100_0000
  {
    U32Digits(ts);
    var a, b := ts / 0x1_0000 / 0x100, U24(ts / 0x1_0000 % 0x100, ts % 0x1_0000 / 0x100, ts % 0x100);
    assert ts == a * 0x100_0000 + b;
    DivModUnique(ts, 0x100_0000, a, b);
  }
}
