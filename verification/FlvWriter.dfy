/** The two FLV writers: `FlvWriter`, which appends to a file, and the streaming `FlvEncoder`. */
module FlvWriter {
  import opened Bytes
  import opened FlvFraming
  import opened FlvStream

  // ---------------------------------------------------------------- fixed-size encoders

  method EncodeHeaderBytes(header: FlvHeader) returns (out: array<byte>)
    ensures fresh(out) && out[..] == HeaderBytes(header)
  {
    out := new byte[13](_ => 0);
    out[0], out[1], out[2] := 0x46, 0x4C, 0x56;
    out[3] := header.version;
    var flags := 0;
    if header.hasVideo { flags := flags + 1; }
    if header.hasAudio { flags := flags + 4; }
    out[4] := flags;
    out[8] := 9;
  }

  method EncodeTagHeaderBytes(t: FlvTagType, isFiltered: bool, dataSize: u32, ts: u32, streamId: u32)
    returns (r: Option<array<byte>>)
    ensures r.Some? <==> dataSize <= 0xFF_FFFF && streamId <= 0xFF_FFFF
    ensures r.Some? ==> fresh(r.value) && r.value[..] == TagHeaderBytes(t, isFiltered, dataSize, ts, streamId)
  {
    if dataSize > 0xFF_FFFF || streamId > 0xFF_FFFF {
      return None;
    }
    var out := new byte[11](_ => 0);
    out[0] := TagTypeByte(t, isFiltered);
    out[1], out[2], out[3] := dataSize / 0x1_0000, dataSize / 0x100 % 0x100, dataSize % 0x100;
    out[4], out[5], out[6] := ts / 0x1_0000 % 0x100, ts % 0x1_0000 / 0x100, ts % 0x100;
    out[7] := ts / 0x1_0000 / 0x100;
    out[8], out[9], out[10] := streamId / 0x1_0000, streamId / 0x100 % 0x100, streamId % 0x100;
    return Some(out);
  }

  // ---------------------------------------------------------------- layouts

  /** A tag as both writers put it on the wire: stream id 0, header, payload. */
  function TagBytes(t: FlvTag): (r: bytes)
    requires |t.data| <= MAX_TAG_DATA_SIZE
    ensures |r| == t.Size()
  {
    TagHeaderBytes(t.tagType, t.isFiltered, |t.data|, t.timestampMs, 0) + t.data
  }

  /** A tag of `FlvWriter`: followed by its own size. */
  function WrittenTag(t: FlvTag): (r: bytes)
    requires |t.data| <= MAX_TAG_DATA_SIZE
    ensures |r| == t.Size() + PREV_TAG_SIZE_FIELD_SIZE
  {
    TagBytes(t) + U32Bytes(t.Size())
  }

  /** What is appended for a payload of any accepted length: its header tells the length cut to 32 bits. */
  function AcceptedTag(t: FlvTag): bytes
    requires |t.data| % 0x1_0000_0000 <= MAX_TAG_DATA_SIZE
  {
    var size := |t.data| % 0x1_0000_0000;
    TagHeaderBytes(t.tagType, t.isFiltered, size, t.timestampMs, 0) + t.data + U32Bytes(size + TAG_HEADER_SIZE)
  }

  predicate AllWritable(tags: seq<FlvTag>) {
    forall i :: 0 <= i < |tags| ==> tags[i].Writable()
  }

  function WrittenTags(tags: seq<FlvTag>): bytes
    requires AllWritable(tags)
  {
    if tags == [] then [] else WrittenTag(tags[0]) + WrittenTags(tags[1..])
  }

  /** A file of `FlvWriter`: the header with PreviousTagSize0, then the tags. */
  function FileBytes(header: FlvHeader, tags: seq<FlvTag>): bytes
    requires AllWritable(tags)
  {
    HeaderBytes(header) + WrittenTags(tags)
  }

  /** The tags of `FlvEncoder`: each preceded by the size of the one before. */
  function EncodedTags(tags: seq<FlvTag>, last: u32): bytes
    requires AllWritable(tags)
  {
    if tags == [] then []
    else U32Bytes(last) + TagBytes(tags[0]) + EncodedTags(tags[1..], tags[0].Size())
  }

  /** A stream of `FlvEncoder`: PreviousTagSize0 is there twice, with the header and before the first tag. */
  function EncoderBytes(header: FlvHeader, tags: seq<FlvTag>): bytes
    requires AllWritable(tags)
  {
    HeaderBytes(header) + EncodedTags(tags, 0)
  }

  lemma {:induction false} WrittenTagsSnoc(tags: seq<FlvTag>, t: FlvTag)
    requires AllWritable(tags) && t.Writable()
    ensures AllWritable(tags + [t])
    ensures WrittenTags(tags + [t]) == WrittenTags(tags) + WrittenTag(t)
  {
    hide TagBytes, U32Bytes;
    if tags == [] {
      assert tags + [t] == [t] && [t][1..] == [];
      assert WrittenTags([t]) == WrittenTag(t) + WrittenTags([]);
    } else {
      assert (tags + [t])[1..] == tags[1..] + [t];
      WrittenTagsSnoc(tags[1..], t);
    }
  }

  lemma {:induction false} EncodedTagsSnoc(tags: seq<FlvTag>, t: FlvTag, last: u32)
    requires AllWritable(tags) && t.Writable()
    ensures AllWritable(tags + [t])
    ensures var prev := if tags == [] then last else tags[|tags| - 1].Size();
            EncodedTags(tags + [t], last) == EncodedTags(tags, last) + (U32Bytes(prev) + TagBytes(t))
  {
    hide TagBytes, U32Bytes;
    if tags == [] {
      assert tags + [t] == [t] && [t][1..] == [];
      assert EncodedTags([], t.Size()) == [];
    } else {
      assert (tags + [t])[1..] == tags[1..] + [t];
      EncodedTagsSnoc(tags[1..], t, tags[0].Size());
    }
  }

  /** The tags as the encoder documents them: each followed by its size, but for the last one. */
  function DocumentedTags(tags: seq<FlvTag>): bytes
    requires AllWritable(tags)
  {
    if tags == [] then []
    else if |tags| == 1 then TagBytes(tags[0])
    else TagBytes(tags[0]) + U32Bytes(tags[0].Size()) + DocumentedTags(tags[1..])
  }

  lemma {:induction false} EncodedIsDocumented(tags: seq<FlvTag>, last: u32)
    requires AllWritable(tags) && tags != []
    ensures EncodedTags(tags, last) == U32Bytes(last) + DocumentedTags(tags)
    decreases |tags|
  {
    hide TagBytes, U32Bytes;
    if |tags| > 1 {
      EncodedIsDocumented(tags[1..], tags[0].Size());
    } else {
      assert tags[1..] == [];
    }
  }

  /** The documented layout holds for a header alone; every tag moves the rest four bytes on. */
  lemma {:induction false} LayoutIsDocumentedExactlyWhen(header: FlvHeader, tags: seq<FlvTag>)
    requires AllWritable(tags)
    ensures EncoderBytes(header, tags) == HeaderBytes(header) + DocumentedTags(tags) <==> tags == []
    ensures tags != [] ==> EncoderBytes(header, tags) == HeaderBytes(header) + U32Bytes(0) + DocumentedTags(tags)
  {
    hide HeaderBytes, U32Bytes, TagBytes;
    if tags != [] {
      EncodedIsDocumented(tags, 0);
      assert |EncoderBytes(header, tags)| == |HeaderBytes(header) + DocumentedTags(tags)| + 4;
    }
  }

  // ---------------------------------------------------------------- FlvWriter

  class FlvWriter {
    var out: bytes
    var timestamp: u32
    var previousTagSize: nat

    constructor ()
      ensures out == [] && timestamp == 0 && previousTagSize == 0
    {
      out, timestamp, previousTagSize := [], 0, 0;
    }

    method WriteHeader(header: FlvHeader)
      modifies this
      ensures out == old(out) + HeaderBytes(header)
      ensures timestamp == old(timestamp) && previousTagSize == old(previousTagSize)
    {
      var b := EncodeHeaderBytes(header);
      out := out + b[..];
    }

    /** The payload length is cut to 32 bits before it is checked against the 24-bit limit. */
    method WriteTag(t: FlvTag) returns (ok: bool)
      modifies this
      ensures ok <==> |t.data| % 0x1_0000_0000 <= MAX_TAG_DATA_SIZE
      ensures !ok ==> out == old(out) && timestamp == old(timestamp) && previousTagSize == old(previousTagSize)
      ensures ok ==> timestamp == t.timestampMs && previousTagSize == |t.data| % 0x1_0000_0000 + TAG_HEADER_SIZE
      ensures |t.data| <= MAX_TAG_DATA_SIZE ==> ok && out == old(out) + WrittenTag(t)
      ensures ok ==> out == old(out) + AcceptedTag(t)
      ensures ok ==> |out| == |old(out)| + t.Size() + PREV_TAG_SIZE_FIELD_SIZE
    {
      hide TagHeaderBytes, U32Bytes;
      var dataSize := |t.data| % 0x1_0000_0000;
      var h := EncodeTagHeaderBytes(t.tagType, t.isFiltered, dataSize, t.timestampMs, 0);
      if h.None? {
        return false;
      }
      var header := h.value[..];
      out := out + header;
      out := out + t.data;
      previousTagSize := dataSize + TAG_HEADER_SIZE;
      out := out + U32Bytes(previousTagSize);
      timestamp := t.timestampMs;
      assert out == old(out) + (header + t.data + U32Bytes(previousTagSize));
      return true;
    }
  }

  /** A whole file: the header, then every tag. */
  method WriteFile(header: FlvHeader, tags: seq<FlvTag>) returns (file: bytes)
    requires AllWritable(tags)
    ensures file == FileBytes(header, tags)
  {
    hide HeaderBytes, WrittenTag;
    var w := new FlvWriter();
    w.WriteHeader(header);
    for i := 0 to |tags|
      invariant fresh(w) && w.out == HeaderBytes(header) + WrittenTags(tags[..i])
    {
      WrittenTagsSnoc(tags[..i], tags[i]);
      assert tags[..i + 1] == tags[..i] + [tags[i]];
      var _ := w.WriteTag(tags[i]);
    }
    assert tags[..|tags|] == tags;
    return w.out;
  }

  // ---------------------------------------------------------------- FlvEncoder

  class FlvEncoder {
    var lastTagSizeWritten: u32
    var headerWritten: bool
    var dst: bytes

    constructor ()
      ensures lastTagSizeWritten == 0 && !headerWritten && dst == []
    {
      lastTagSizeWritten, headerWritten, dst := 0, false, [];
    }

    /** When an item is accepted. */
    predicate Accepts(item: FlvData)
      reads this
    {
      match item
      case Header(_) => !headerWritten
      case Tag(t) => headerWritten && t.streamId == 0 && |t.data| <= MAX_TAG_DATA_SIZE
      case _ => true
    }

    method Encode(item: FlvData) returns (ok: bool)
      modifies this
      ensures ok == old(Accepts(item))
      ensures ok && item.Header? ==>
                headerWritten && lastTagSizeWritten == 0 && dst == old(dst) + HeaderBytes(item.header)
      ensures ok && item.Tag? ==>
                && headerWritten && lastTagSizeWritten == item.tag.Size()
                && dst == old(dst) + (U32Bytes(old(lastTagSizeWritten)) + TagBytes(item.tag))
      ensures !ok || (!item.Header? && !item.Tag?) ==>
                dst == old(dst) && headerWritten == old(headerWritten) && lastTagSizeWritten == old(lastTagSizeWritten)
    {
      hide TagHeaderBytes, HeaderBytes, U32Bytes;
      match item {
        case Header(header) =>
          if headerWritten { return false; }
          var b := EncodeHeaderBytes(header);
          dst := dst + b[..];
          lastTagSizeWritten := 0;
          headerWritten := true;
          return true;
        case Tag(t) =>
          if !headerWritten { return false; }
          if t.streamId != 0 { return false; }
          if |t.data| > MAX_TAG_DATA_SIZE { return false; }
          var h := EncodeTagHeaderBytes(t.tagType, t.isFiltered, |t.data|, t.timestampMs, 0);
          var prev, header := U32Bytes(lastTagSizeWritten), h.value[..];
          dst := dst + prev;
          dst := dst + header;
          dst := dst + t.data;
          lastTagSizeWritten := TAG_HEADER_SIZE + |t.data|;
          assert dst == old(dst) + (prev + (header + t.data));
          return true;
        case Split => return true;
        case EndOfSequence => return true;
      }
    }
  }

  /** A whole stream: the header, then every tag. */
  method EncodeStream(header: FlvHeader, tags: seq<FlvTag>) returns (stream: bytes)
    requires AllWritable(tags) && forall i :: 0 <= i < |tags| ==> tags[i].streamId == 0
    ensures stream == EncoderBytes(header, tags)
  {
    hide HeaderBytes, TagBytes, U32Bytes;
    var e := new FlvEncoder();
    var _ := e.Encode(Header(header));
    for i := 0 to |tags|
      invariant fresh(e) && e.headerWritten
      invariant e.lastTagSizeWritten == if i == 0 then 0 else tags[i - 1].Size()
      invariant e.dst == HeaderBytes(header) + EncodedTags(tags[..i], 0)
    {
      EncodedTagsSnoc(tags[..i], tags[i], 0);
      assert tags[..i + 1] == tags[..i] + [tags[i]];
      var _ := e.Encode(Tag(tags[i]));
    }
    assert tags[..|tags|] == tags;
    return e.dst;
  }
}
