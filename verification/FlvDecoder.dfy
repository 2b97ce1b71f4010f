/**
 The incremental FLV decoder, which consumes a growing buffer in place, and the
 `FramedRead` loop that drives it.
 */
module FlvDecoder {
  import opened Bytes
  import opened FlvFraming
  import opened FlvStream

  // ---------------------------------------------------------------- every run of appends and calls

  /** The two things that happen to a decoder's buffer while the stream is open. */
  datatype Event = Feed(chunk: bytes) | Poll

  datatype Machine = Machine(state: DecoderState, buffer: bytes, emitted: seq<Emitted>, failed: bool)

  const Start := Machine(Initial, [], [], false)

  /** An error ends the run: after it nothing changes any more. */
  function Apply(m: Machine, e: Event): Machine {
    if m.failed then m
    else match e
      case Feed(chunk) => m.(buffer := m.buffer + chunk)
      case Poll =>
        var r := Decode(m.state, m.buffer);
        Machine(r.state, r.rest,
                if r.outcome.Frame? then m.emitted + [Emitted(r.outcome.data, r.state.position)] else m.emitted,
                r.outcome.InvalidHeader?)
  }

  function Execute(m: Machine, events: seq<Event>): Machine {
    if events == [] then m else Apply(Execute(m, events[..|events| - 1]), events[|events| - 1])
  }

  function Fed(events: seq<Event>): bytes {
    if events == [] then []
    else
      var e := events[|events| - 1];
      Fed(events[..|events| - 1]) + if e.Feed? then e.chunk else []
  }

  /**
   In every run, and for every continuation of the stream, what has been returned so far is
   what the whole-stream reference starts with, and the rest is still to come.
   */
  lemma {:induction false} EveryRunFollowsReference(events: seq<Event>, later: bytes)
    ensures var m := Execute(Start, events);
            Reference(Fed(events) + later) ==
            if m.failed then Run(m.emitted, true)
            else Prepend(m.emitted, Remaining(m.state, m.buffer + later))
  {
    if events == [] {
      assert Fed(events) + later == later == Start.buffer + later;
    } else {
      var prev, e := events[..|events| - 1], events[|events| - 1];
      var m := Execute(Start, prev);
      if e.Feed? {
        assert Fed(events) + later == Fed(prev) + (e.chunk + later);
        EveryRunFollowsReference(prev, e.chunk + later);
        assert (m.buffer + e.chunk) + later == m.buffer + (e.chunk + later);
      } else {
        assert Fed(events) + later == Fed(prev) + later;
        EveryRunFollowsReference(prev, later);
        if !m.failed { PollFollows(m, later); }
      }
    }
  }

  lemma {:induction false} PollFollows(m: Machine, later: bytes)
    requires !m.failed
    ensures var n := Apply(m, Poll);
            Prepend(m.emitted, Remaining(m.state, m.buffer + later)) ==
            if n.failed then Run(n.emitted, true)
            else Prepend(n.emitted, Remaining(n.state, n.buffer + later))
  {
    DecodeKeeps(m.state, m.buffer, later);
    var r := Decode(m.state, m.buffer);
    if r.outcome.Frame? {
      var x := [Emitted(r.outcome.data, r.state.position)];
      var after := Remaining(r.state, r.rest + later);
      assert m.emitted + (x + after.items) == (m.emitted + x) + after.items;
    }
  }

  /** In every run the bytes fed are the bytes counted by `position` followed by the buffer. */
  lemma {:induction false} EveryRunConservesBytes(events: seq<Event>)
    ensures var m := Execute(Start, events);
            !m.failed ==>
              && m.state.position + |m.buffer| == |Fed(events)|
              && m.buffer == Fed(events)[m.state.position..]
  {
    hide Decode;
    if events != [] {
      var prev, e := events[..|events| - 1], events[|events| - 1];
      EveryRunConservesBytes(prev);
      var m := Execute(Start, prev);
      if !m.failed {
        if e.Poll? {
          DecodeConserves(m.state, m.buffer);
          assert Fed(events) == Fed(prev);
        } else {
          assert Fed(events) == Fed(prev) + e.chunk;
        }
      }
    }
  }

  // ---------------------------------------------------------------- the decoder itself

  class BytesMut {
    var data: bytes

    constructor ()
      ensures data == []
    {
      data := [];
    }
  }

  class FlvDecoder {
    var headerParsed: bool
    var expectingTagHeader: bool
    var lastTagSize: nat
    var position: nat

    ghost function State(): DecoderState
      reads this
    {
      DecoderState(headerParsed, expectingTagHeader, lastTagSize, position)
    }

    constructor ()
      ensures State() == Initial
    {
      headerParsed, expectingTagHeader, lastTagSize, position := false, false, 0, 0;
    }

    method TryResync(src: BytesMut) returns (found: bool)
      modifies this, src
      ensures Step(State(), src.data, Pending) == old(Resync(State(), src.data))
      ensures found <==> src.data != []
    {
      var pos := 0;
      while pos < |src.data| && !IsTagStart(src.data[pos])
        invariant pos <= |src.data|
        invariant FindTagStartFrom(src.data, pos) == FindTagStart(src.data)
      {
        pos := pos + 1;
      }
      found := pos < |src.data|;
      position := position + pos;
      src.data := src.data[pos..];
      expectingTagHeader := true;
      lastTagSize := 0;
    }

    method TakeTagBody(src: BytesMut, header: ParsedTagHeader) returns (o: Outcome)
      requires |src.data| >= TAG_HEADER_SIZE
      modifies this, src
      ensures Step(State(), src.data, o) == old(DecodeTagBody(State(), src.data, header))
    {
      if !header.tagType.Known() {
        var _ := TryResync(src);
        return Pending;
      }
      if header.dataSize > DECODER_MAX_TAG_DATA_SIZE {
        src.data := src.data[TAG_HEADER_SIZE..];
        position := position + TAG_HEADER_SIZE;
        lastTagSize := 0;
        return Pending;
      }
      var total := TAG_HEADER_SIZE + header.dataSize;
      if |src.data| < total {
        return Pending;
      }
      var tagBytes := src.data[..total];
      src.data := src.data[total..];
      position := position + total;
      lastTagSize := total;
      expectingTagHeader := false;
      assert tagBytes[TAG_HEADER_SIZE..] == old(src.data)[TAG_HEADER_SIZE..total];
      return Frame(Tag(TagOf(header, tagBytes[TAG_HEADER_SIZE..])));
    }

    method TakeHeader(src: BytesMut) returns (o: Outcome)
      modifies this, src
      ensures Step(State(), src.data, o) == old(DecodeHeader(State(), src.data))
    {
      if |src.data| < FLV_HEADER_SIZE {
        return Pending;
      }
      if !FixedHeaderOk(src.data) {
        return InvalidHeader;
      }
      var offset := DataOffset(src.data);
      if |src.data| < offset + PREV_TAG_SIZE_FIELD_SIZE {
        return Pending;
      }
      var headerBytes := src.data[..offset];
      src.data := src.data[offset..];
      position := position + |headerBytes|;
      match ParseHeader(headerBytes) {
        case None =>
          return InvalidHeader;
        case Some(h) =>
          src.data := src.data[PREV_TAG_SIZE_FIELD_SIZE..];
          position := position + PREV_TAG_SIZE_FIELD_SIZE;
          headerParsed := true;
          expectingTagHeader := true;
          lastTagSize := 0;
          return Frame(Header(h));
      }
    }

    method DecodeNext(src: BytesMut) returns (o: Outcome)
      modifies this, src
      ensures Step(State(), src.data, o) == old(Decode(State(), src.data))
    {
      if !headerParsed {
        if src.data == [] {
          return Pending;
        }
        if IsTagStart(src.data[0]) {
          headerParsed, expectingTagHeader, lastTagSize := true, true, 0;
        } else {
          o := TakeHeader(src);
          return;
        }
      }
      if !expectingTagHeader {
        if |src.data| < PREV_TAG_SIZE_FIELD_SIZE {
          return Pending;
        }
        src.data := src.data[PREV_TAG_SIZE_FIELD_SIZE..];
        position := position + PREV_TAG_SIZE_FIELD_SIZE;
        expectingTagHeader := true;
      }
      if |src.data| < TAG_HEADER_SIZE {
        return Pending;
      }
      o := TakeTagBody(src, ParseTagHeader(src.data));
    }

    /** One call of the decoder when no more bytes will come. */
    method PollAtEnd(src: BytesMut) returns (o: Outcome)
      modifies this, src
      ensures |src.data| <= old(|src.data|)
      ensures position + |src.data| == old(position + |src.data|)
      ensures match o
              case Frame(d) =>
                && old(Remaining(State(), src.data)) == Prepend([Emitted(d, position)], Remaining(State(), src.data))
                && |src.data| < old(|src.data|)
              case Pending =>
                && old(Remaining(State(), src.data)) == Remaining(State(), src.data)
                && (|src.data| == old(|src.data|) ==> old(Remaining(State(), src.data)) == Quiet)
              case InvalidHeader => old(Remaining(State(), src.data)) == Run([], true)
    {
      hide Decode, Remaining;
      ghost var s, w := State(), src.data;
      o := DecodeNext(src);
      DecodeConserves(s, w);
      DecodeKeeps(s, w, []);
      assert w + [] == w && src.data + [] == src.data;
      if o.Pending? && |src.data| == |w| {
        NoProgressIsQuiet(s, w);
      }
    }

    /**
     One call at the end of input. It returns the next item that is left; when it returns none,
     none was left, and the buffer is empty so that the driver stops.
     */
    method DecodeEof(src: BytesMut) returns (o: Outcome)
      modifies this, src
      ensures match o
              case Frame(d) =>
                && old(Remaining(State(), src.data)) == Prepend([Emitted(d, position)], Remaining(State(), src.data))
                && |src.data| < old(|src.data|)
                && position + |src.data| == old(position + |src.data|)
              case Pending => old(Remaining(State(), src.data)) == Quiet && src.data == []
              case InvalidHeader => old(Remaining(State(), src.data)) == Run([], true)
    {
      hide Remaining;
      while true
        invariant Remaining(State(), src.data) == old(Remaining(State(), src.data))
        invariant position + |src.data| == old(position + |src.data|)
        invariant |src.data| <= old(|src.data|)
        decreases |src.data|
      {
        var initialLen := |src.data|;
        if initialLen == 0 {
          EmptyIsQuiet(State());
          return Pending;
        }
        o := PollAtEnd(src);
        if !o.Pending? {
          return;
        }
        if |src.data| == initialLen {
          src.data := [];
          return;
        }
      }
    }
  }

  /** Calls the decoder until it wants more data, adding what it returns to `items`. */
  method PollAll(decoder: FlvDecoder, src: BytesMut, items: seq<Emitted>, ghost later: bytes)
    returns (items': seq<Emitted>, failed: bool)
    modifies decoder, src
    ensures old(Prepend(items, Remaining(decoder.State(), src.data + later))) ==
            if failed then Run(items', true)
            else Prepend(items', Remaining(decoder.State(), src.data + later))
  {
    hide Decode, Remaining;
    items' := items;
    while true
      invariant old(Prepend(items, Remaining(decoder.State(), src.data + later))) ==
                Prepend(items', Remaining(decoder.State(), src.data + later))
      decreases |src.data|
    {
      ghost var s, w := decoder.State(), src.data;
      var o := decoder.DecodeNext(src);
      DecodeKeeps(s, w, later);
      DecodeConserves(s, w);
      match o {
        case InvalidHeader => return items', true;
        case Pending => return items', false;
        case Frame(d) =>
          items' := Snoc(items', d, decoder.position, Remaining(decoder.State(), src.data + later));
      }
    }
  }

  /** Calls the decoder at the end of input until nothing is left. */
  method Drain(decoder: FlvDecoder, src: BytesMut, items: seq<Emitted>) returns (run: Run)
    modifies decoder, src
    ensures run == old(Prepend(items, Remaining(decoder.State(), src.data)))
    ensures !run.failed ==> src.data == []
  {
    hide Remaining;
    var items' := items;
    while true
      invariant old(Prepend(items, Remaining(decoder.State(), src.data))) ==
                Prepend(items', Remaining(decoder.State(), src.data))
      decreases |src.data|
    {
      var o := decoder.DecodeEof(src);
      match o {
        case InvalidHeader => return Run(items', true);
        case Pending => return Run(items', false);
        case Frame(d) =>
          items' := Snoc(items', d, decoder.position, Remaining(decoder.State(), src.data));
      }
    }
  }

  /**
   The driver: append each chunk and take items until the decoder wants more, then drain what
   is left at the end of input. However the stream was cut, the items, their positions and the
   final error are those of the uncut stream.
   */
  method FramedRead(chunks: seq<bytes>) returns (run: Run)
    ensures run == Reference(Flatten(chunks))
  {
    hide Remaining;
    var decoder := new FlvDecoder();
    var src := new BytesMut();
    var items: seq<Emitted> := [];
    assert chunks[0..] == chunks && [] + Flatten(chunks) == Flatten(chunks);
    for i := 0 to |chunks|
      invariant fresh(decoder) && fresh(src)
      invariant Reference(Flatten(chunks)) ==
                Prepend(items, Remaining(decoder.State(), src.data + Flatten(chunks[i..])))
    {
      assert chunks[i..][1..] == chunks[i + 1..];
      ghost var later := Flatten(chunks[i + 1..]);
      assert src.data + (chunks[i] + later) == (src.data + chunks[i]) + later;
      src.data := src.data + chunks[i];
      var failed;
      items, failed := PollAll(decoder, src, items, later);
      if failed {
        return Run(items, true);
      }
    }
    assert src.data + Flatten([]) == src.data;
    run := Drain(decoder, src, items);
  }

  function Snoc(items: seq<Emitted>, d: FlvData, end: nat, ghost rest: Run): (r: seq<Emitted>)
    ensures Prepend(r, rest) == Prepend(items, Prepend([Emitted(d, end)], rest))
  {
    assert (items + [Emitted(d, end)]) + rest.items == items + ([Emitted(d, end)] + rest.items);
    items + [Emitted(d, end)]
  }
}
