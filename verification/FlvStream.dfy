/**
 One call of the incremental FLV decoder as a function on its state and buffer, and the
 whole-stream reference it is compared with.
 */
module FlvStream {
  import opened Bytes
  import opened FlvFraming

  datatype FlvData = Header(header: FlvHeader) | Tag(tag: FlvTag) | Split | EndOfSequence

  datatype DecoderState = DecoderState(
    headerParsed: bool, expectingTagHeader: bool, lastTagSize: nat, position: nat)

  const Initial := DecoderState(false, false, 0, 0)

  datatype Outcome = Frame(data: FlvData) | Pending | InvalidHeader

  /** The result of one call: the new state, what is left in the buffer, and what was returned. */
  datatype Step = Step(state: DecoderState, rest: bytes, outcome: Outcome)

  // ---------------------------------------------------------------- one call

  /** The first position from `i` on where a tag may start, or the length when there is none. */
  function FindTagStartFrom(w: bytes, i: nat): (q: nat)
    requires i <= |w|
    ensures i <= q <= |w|
    decreases |w| - i
  {
    if i == |w| || IsTagStart(w[i]) then i else FindTagStartFrom(w, i + 1)
  }

  function FindTagStart(w: bytes): (q: nat)
    ensures q <= |w|
  {
    FindTagStartFrom(w, 0)
  }

  lemma {:induction false} FindTagStartFirst(w: bytes, i: nat)
    requires i <= |w|
    ensures var q := FindTagStartFrom(w, i);
            && (forall j :: i <= j < q ==> !IsTagStart(w[j]))
            && (q < |w| ==> IsTagStart(w[q]))
    decreases |w| - i
  {
    if i < |w| && !IsTagStart(w[i]) {
      FindTagStartFirst(w, i + 1);
    }
  }

  /** Drops everything before the next tag start: the whole buffer when it holds none. */
  function Resync(s: DecoderState, src: bytes): (r: Step) {
    var q := FindTagStart(src);
    Step(DecoderState(s.headerParsed, true, 0, s.position + q), src[q..], Pending)
  }

  function DecodeTagBody(s: DecoderState, src: bytes, h: ParsedTagHeader): (r: Step)
    requires |src| >= TAG_HEADER_SIZE
  {
    if !h.tagType.Known() then
      Resync(s, src)
    else if h.dataSize > DECODER_MAX_TAG_DATA_SIZE then
      Step(s.(position := s.position + TAG_HEADER_SIZE, lastTagSize := 0), src[TAG_HEADER_SIZE..], Pending)
    else
      var total := TAG_HEADER_SIZE + h.dataSize;
      if |src| < total then Step(s, src, Pending)
      else
        Step(DecoderState(s.headerParsed, false, total, s.position + total), src[total..],
             Frame(Tag(TagOf(h, src[TAG_HEADER_SIZE..total]))))
  }

  function DecodeTag(s: DecoderState, src: bytes): (r: Step) {
    if |src| < TAG_HEADER_SIZE then Step(s, src, Pending)
    else DecodeTagBody(s, src, ParseTagHeader(src))
  }

  function DecodeBody(s: DecoderState, src: bytes): (r: Step) {
    if s.expectingTagHeader then DecodeTag(s, src)
    else if |src| < PREV_TAG_SIZE_FIELD_SIZE then Step(s, src, Pending)
    else DecodeTag(s.(position := s.position + PREV_TAG_SIZE_FIELD_SIZE, expectingTagHeader := true),
                   src[PREV_TAG_SIZE_FIELD_SIZE..])
  }

  function DecodeHeader(s: DecoderState, src: bytes): (r: Step) {
    if |src| < FLV_HEADER_SIZE then Step(s, src, Pending)
    else if !FixedHeaderOk(src) then Step(s, src, InvalidHeader)
    else
      var offset := DataOffset(src);
      if |src| < offset + PREV_TAG_SIZE_FIELD_SIZE then Step(s, src, Pending)
      else match ParseHeader(src[..offset])
        case None => Step(s.(position := s.position + offset), src[offset..], InvalidHeader)
        case Some(h) =>
          Step(DecoderState(true, true, 0, s.position + offset + PREV_TAG_SIZE_FIELD_SIZE),
               src[offset + PREV_TAG_SIZE_FIELD_SIZE..], Frame(Header(h)))
  }

  function Decode(s: DecoderState, src: bytes): (r: Step) {
    if s.headerParsed then DecodeBody(s, src)
    else if src == [] then Step(s, src, Pending)
    else if IsTagStart(src[0]) then DecodeBody(s.(headerParsed := true, expectingTagHeader := true, lastTagSize := 0), src)
    else DecodeHeader(s, src)
  }

  // ---------------------------------------------------------------- the whole stream at once

  /** A returned item and the decoder's `position()` right after it. */
  datatype Emitted = Emitted(data: FlvData, end: nat)

  /** Everything one stream yields, and whether it ended in an error. */
  datatype Run = Run(items: seq<Emitted>, failed: bool)

  function Prepend(items: seq<Emitted>, r: Run): Run {
    Run(items + r.items, r.failed)
  }

  const Quiet := Run([], false)

  /**
   The tags of `w`, whose first byte is at stream offset `pos` and may start a tag: skip to
   the next tag start, take that tag if it is all there, skip the PreviousTagSize after it.
   */
  function TagsFrom(w: bytes, pos: nat): Run
    decreases |w|, 2
  {
    var q := FindTagStart(w);
    TakeTag(w[q..], pos + q)
  }

  function TakeTag(w: bytes, pos: nat): Run
    decreases |w|, 1
  {
    match WholeTag(w)
    case None => Quiet
    case Some(n) => Prepend([Emitted(Tag(TagAt(w)), pos + n)], AfterTag(w[n..], pos + n))
  }

  function AfterTag(w: bytes, pos: nat): Run
    decreases |w|, 0
  {
    if |w| < PREV_TAG_SIZE_FIELD_SIZE then Quiet
    else TagsFrom(w[PREV_TAG_SIZE_FIELD_SIZE..], pos + PREV_TAG_SIZE_FIELD_SIZE)
  }

  function HeaderFrom(w: bytes, pos: nat): Run {
    if |w| < FLV_HEADER_SIZE then Quiet
    else if !FixedHeaderOk(w) then Run([], true)
    else
      var start := DataOffset(w) + PREV_TAG_SIZE_FIELD_SIZE;
      if |w| < start then Quiet
      else if DataOffset(w) > MAX_DATA_OFFSET then Run([], true)
      else Prepend([Emitted(Header(HeaderOf(w)), pos + start)], TagsFrom(w[start..], pos + start))
  }

  /** What is still to come from a decoder in state `s` when `w` is all the bytes it will see. */
  function Remaining(s: DecoderState, w: bytes): Run {
    if s.headerParsed then
      if s.expectingTagHeader then TagsFrom(w, s.position) else AfterTag(w, s.position)
    else if w == [] then Quiet
    else if IsTagStart(w[0]) then TagsFrom(w, s.position)
    else HeaderFrom(w, s.position)
  }

  function Reference(stream: bytes): Run {
    Remaining(Initial, stream)
  }

  // ---------------------------------------------------------------- one call keeps the reference

  lemma {:induction false} FindTagStartUnique(w: bytes, i: nat, q: nat)
    requires i <= q <= |w|
    requires forall j :: i <= j < q ==> !IsTagStart(w[j])
    requires q < |w| ==> IsTagStart(w[q])
    ensures FindTagStartFrom(w, i) == q
    decreases q - i
  {
    if i < q {
      FindTagStartUnique(w, i + 1, q);
    }
  }

  lemma {:induction false} FindTagStartSkips(g: bytes, w: bytes)
    ensures FindTagStart(g + w) ==
            if FindTagStart(g) < |g| then FindTagStart(g) else |g| + FindTagStart(w)
  {
    FindTagStartFirst(g, 0);
    FindTagStartFirst(w, 0);
    FindTagStartUnique(g + w, 0, if FindTagStart(g) < |g| then FindTagStart(g) else |g| + FindTagStart(w));
  }

  /** Throwing away the bytes before the next tag start of a prefix changes nothing later. */
  lemma {:induction false} TagsFromSkips(src: bytes, later: bytes, pos: nat)
    ensures var q := FindTagStart(src);
            TagsFrom(src + later, pos) == TagsFrom(src[q..] + later, pos + q)
  {
    SkipAligns(src, later);
  }

  lemma {:induction false} SkipAligns(src: bytes, later: bytes)
    ensures var q := FindTagStart(src); var w, v := src + later, src[q..] + later;
            FindTagStart(w) == q + FindTagStart(v) && w[FindTagStart(w)..] == v[FindTagStart(v)..]
  {
    var q := FindTagStart(src);
    FindTagStartSkips(src, later);
    if q < |src| {
      FindTagStartFirst(src, 0);
      HeadIsTagStart(src[q..] + later);
    } else {
      assert src[q..] + later == later;
    }
    DropPrefix(src, later, q, FindTagStart(src[q..] + later));
  }

  lemma {:induction false} HeadIsTagStart(v: bytes)
    requires v != [] && IsTagStart(v[0])
    ensures FindTagStart(v) == 0
  {}

  lemma {:induction false} DropPrefix(src: bytes, later: bytes, q: nat, p: nat)
    requires q <= |src| && p <= |src| - q + |later|
    ensures (src + later)[q + p..] == (src[q..] + later)[p..]
  {}

  /** `src` begins with a whole tag; the reference takes exactly that tag. */
  lemma {:induction false} TagsFromTakes(src: bytes, later: bytes, pos: nat)
    requires WholeTag(src).Some? && IsTagStart(src[0])
    ensures var n := WholeTag(src).value;
            TagsFrom(src + later, pos) ==
            Prepend([Emitted(Tag(TagAt(src)), pos + n)], AfterTag(src[n..] + later, pos + n))
  {
    var w := src + later;
    var n := WholeTag(src).value;
    HeadIsTagStart(w);
    WholeTagGrows(src, later);
    assert w[0..] == w;
    hide WholeTag, TagAt;
    assert TagsFrom(w, pos) == TakeTag(w, pos);
    assert w[n..] == src[n..] + later;
  }

  lemma {:induction false} WholeTagGrows(src: bytes, later: bytes)
    requires WholeTag(src).Some?
    ensures WholeTag(src + later) == WholeTag(src) && TagAt(src + later) == TagAt(src)
  {
    var w := src + later;
    var n := WholeTag(src).value;
    assert forall i :: 0 <= i < TAG_HEADER_SIZE ==> w[i] == src[i];
    assert w[TAG_HEADER_SIZE..n] == src[TAG_HEADER_SIZE..n];
  }

  /** How one call's outcome relates what was still to come before it and after it. */
  predicate KeepsRemaining(s: DecoderState, src: bytes, later: bytes, r: Step) {
    var before, after := Remaining(s, src + later), Remaining(r.state, r.rest + later);
    match r.outcome
    case Frame(d) => before == Prepend([Emitted(d, r.state.position)], after)
    case Pending => before == after
    case InvalidHeader => before == Run([], true)
  }

  lemma {:induction false} DecodeTagKeeps(s: DecoderState, src: bytes, later: bytes)
    requires s.headerParsed && s.expectingTagHeader
    ensures KeepsRemaining(s, src, later, DecodeTag(s, src))
  {
    hide TagsFrom, AfterTag, ParseTagHeader;
    if |src| >= TAG_HEADER_SIZE {
      var h := ParseTagHeader(src);
      if !h.tagType.Known() {
        TagsFromSkips(src, later, s.position);
      } else if |src| >= TAG_HEADER_SIZE + h.dataSize {
        TagsFromTakes(src, later, s.position);
      }
    }
  }

  lemma {:induction false} DecodeBodyKeeps(s: DecoderState, src: bytes, later: bytes)
    requires s.headerParsed
    ensures KeepsRemaining(s, src, later, DecodeBody(s, src))
  {
    if s.expectingTagHeader {
      DecodeTagKeeps(s, src, later);
    } else if |src| >= PREV_TAG_SIZE_FIELD_SIZE {
      var s' := s.(position := s.position + PREV_TAG_SIZE_FIELD_SIZE, expectingTagHeader := true);
      assert (src + later)[PREV_TAG_SIZE_FIELD_SIZE..] == src[PREV_TAG_SIZE_FIELD_SIZE..] + later;
      DecodeTagKeeps(s', src[PREV_TAG_SIZE_FIELD_SIZE..], later);
    }
  }

  lemma {:induction false} ParseHeaderExact(src: bytes)
    requires |src| >= FLV_HEADER_SIZE && FixedHeaderOk(src) && |src| >= DataOffset(src)
    ensures ParseHeader(src[..DataOffset(src)]) ==
            if DataOffset(src) > MAX_DATA_OFFSET then None else Some(HeaderOf(src))
  {
    var v := src[..DataOffset(src)];
    assert forall i :: 0 <= i < FLV_HEADER_SIZE ==> v[i] == src[i];
  }

  lemma {:induction false} DecodeHeaderKeeps(s: DecoderState, src: bytes, later: bytes)
    requires !s.headerParsed && src != [] && !IsTagStart(src[0])
    ensures KeepsRemaining(s, src, later, DecodeHeader(s, src))
  {
    var w := src + later;
    if |src| >= FLV_HEADER_SIZE {
      assert forall i :: 0 <= i < FLV_HEADER_SIZE ==> w[i] == src[i];
      if FixedHeaderOk(src) {
        var offset := DataOffset(src);
        var start := offset + PREV_TAG_SIZE_FIELD_SIZE;
        if |src| >= start {
          ParseHeaderExact(src);
          assert w[start..] == src[start..] + later;
        }
      }
    }
  }

  /**
   The central step: whatever bytes come later, what one call returns followed by what is
   still to come is what was to come before the call.
   */
  lemma {:induction false} DecodeKeeps(s: DecoderState, src: bytes, later: bytes)
    ensures KeepsRemaining(s, src, later, Decode(s, src))
  {
    if s.headerParsed {
      DecodeBodyKeeps(s, src, later);
    } else if src != [] {
      if IsTagStart(src[0]) {
        DecodeBodyKeeps(s.(headerParsed := true, expectingTagHeader := true, lastTagSize := 0), src, later);
      } else {
        DecodeHeaderKeeps(s, src, later);
      }
    }
  }

  lemma {:induction false} EmptyIsQuiet(s: DecoderState)
    ensures Remaining(s, []) == Quiet
  {
    assert TagsFrom([], s.position) == Quiet;
  }

  /** At the end of input a call that consumes nothing and returns nothing means nothing is left. */
  lemma {:induction false} NoProgressIsQuiet(s: DecoderState, src: bytes)
    requires Decode(s, src).outcome.Pending? && |Decode(s, src).rest| == |src|
    ensures Remaining(s, src) == Quiet
  {
    if s.headerParsed || (src != [] && IsTagStart(src[0])) {
      QuietBody(if s.headerParsed then s else s.(headerParsed := true, expectingTagHeader := true, lastTagSize := 0), src);
    }
  }

  lemma {:induction false} QuietBody(s: DecoderState, src: bytes)
    requires s.headerParsed
    requires DecodeBody(s, src).outcome.Pending? && |DecodeBody(s, src).rest| == |src|
    ensures Remaining(s, src) == Quiet
  {
    if s.expectingTagHeader {
      if |src| >= TAG_HEADER_SIZE && !ParseTagHeader(src).tagType.Known() {
        ResyncProgress(s, src);
      }
      CutTagIsQuiet(src, s.position);
    }
  }

  /** A truncated tag yields nothing. */
  lemma {:induction false} CutTagIsQuiet(w: bytes, pos: nat)
    requires WholeTag(w).None? && (|w| >= TAG_HEADER_SIZE ==> IsTagStart(w[0]))
    ensures TagsFrom(w, pos) == Quiet
  {
    if |w| >= TAG_HEADER_SIZE {
      HeadIsTagStart(w);
      assert w[0..] == w;
      assert TagsFrom(w, pos) == TakeTag(w, pos);
    } else {
      assert WholeTag(w[FindTagStart(w)..]).None?;
    }
  }

  // ---------------------------------------------------------------- bytes are accounted for

  /** What a call took from the front of the buffer is what its position moved by. */
  predicate Conserves(s: DecoderState, src: bytes, r: Step) {
    && |r.rest| <= |src|
    && r.rest == src[|src| - |r.rest|..]
    && r.state.position + |r.rest| == s.position + |src|
    && (r.outcome.Frame? ==> |r.rest| + TAG_HEADER_SIZE <= |src|)
  }

  lemma {:induction false} DecodeTagConserves(s: DecoderState, src: bytes)
    ensures Conserves(s, src, DecodeTag(s, src))
  {
    if |src| >= TAG_HEADER_SIZE {
      TagBodyConserves(s, src, ParseTagHeader(src));
      hide DecodeTagBody, ParseTagHeader;
    } else {
      assert src[0..] == src;
    }
  }

  lemma {:induction false} TagBodyConserves(s: DecoderState, src: bytes, h: ParsedTagHeader)
    requires |src| >= TAG_HEADER_SIZE
    ensures Conserves(s, src, DecodeTagBody(s, src, h))
  {
    hide FindTagStart;
    assert src[0..] == src;
  }

  lemma {:induction false} DecodeBodyConserves(s: DecoderState, src: bytes)
    ensures Conserves(s, src, DecodeBody(s, src))
  {
    hide DecodeTag;
    if s.expectingTagHeader {
      DecodeTagConserves(s, src);
    } else if |src| >= PREV_TAG_SIZE_FIELD_SIZE {
      DecodeTagConserves(s.(position := s.position + PREV_TAG_SIZE_FIELD_SIZE, expectingTagHeader := true),
                         src[PREV_TAG_SIZE_FIELD_SIZE..]);
    }
  }

  /** No call loses count of a byte, and every call that returns an item consumes bytes. */
  lemma {:induction false} DecodeConserves(s: DecoderState, src: bytes)
    ensures Conserves(s, src, Decode(s, src))
  {
    if s.headerParsed {
      DecodeBodyConserves(s, src);
    } else if src != [] && IsTagStart(src[0]) {
      DecodeBodyConserves(s.(headerParsed := true, expectingTagHeader := true, lastTagSize := 0), src);
    }
  }

  /** A resync is entered on a byte that cannot start a tag, so it always skips at least one. */
  lemma {:induction false} ResyncProgress(s: DecoderState, src: bytes)
    requires |src| >= TAG_HEADER_SIZE && !ParseTagHeader(src).tagType.Known()
    ensures var r := DecodeTag(s, src);
            && r == Resync(s, src)
            && |r.rest| < |src|
            && (r.rest != [] ==> IsTagStart(r.rest[0]))
            && forall i :: 0 <= i < |src| - |r.rest| ==> !IsTagStart(src[i])
  {
    FindTagStartFirst(src, 0);
  }

  // ---------------------------------------------------------------- what the next size field should hold

  /** Before the header no size is known, and where a size field is due it is that of a tag. */
  predicate Settled(s: DecoderState) {
    && (!s.headerParsed ==> s.lastTagSize == 0)
    && (s.headerParsed && !s.expectingTagHeader ==> s.lastTagSize >= TAG_HEADER_SIZE)
  }

  /** The bytes of the size field that a call in state `s` takes before it looks for a tag. */
  function FieldTaken(s: DecoderState, src: bytes): nat {
    if s.headerParsed && !s.expectingTagHeader && |src| >= 4 then 4 else 0
  }

  /** The size is that of the tag just returned; it is forgotten where the decoder lost its place, and else kept. */
  predicate Remembers(s: DecoderState, src: bytes, r: Step) {
    match r.outcome
    case Frame(Tag(t)) => r.state.lastTagSize == 11 + |t.data| && !r.state.expectingTagHeader
    case Frame(_) => r.state.lastTagSize == 0 && r.state.expectingTagHeader
    case InvalidHeader => r.state.lastTagSize == s.lastTagSize
    case Pending =>
      r.state.lastTagSize == if |r.rest| + FieldTaken(s, src) == |src| then s.lastTagSize else 0
  }

  lemma {:induction false} TagIsRemembered(s: DecoderState, src: bytes)
    requires s.headerParsed && s.expectingTagHeader
    ensures var r := DecodeTag(s, src); Settled(r.state) && r.state.headerParsed && Remembers(s, src, r)
  {
    if |src| >= TAG_HEADER_SIZE {
      var h := ParseTagHeader(src);
      if !h.tagType.Known() {
        ResyncProgress(s, src);
        hide ParseTagHeader, FindTagStart;
      } else {
        hide ParseTagHeader, FindTagStart;
      }
    }
  }

  /** In every state a run can reach, the remembered size is that of the tag whose size field is due. */
  lemma {:induction false} SizeIsRemembered(s: DecoderState, src: bytes)
    requires Settled(s)
    ensures var r := Decode(s, src); Settled(r.state) && Remembers(s, src, r)
    ensures Settled(Initial)
  {
    hide DecodeTag, ParseHeader, FixedHeaderOk, DataOffset;
    if s.headerParsed && s.expectingTagHeader {
      TagIsRemembered(s, src);
    } else if s.headerParsed && |src| >= PREV_TAG_SIZE_FIELD_SIZE {
      TagIsRemembered(s.(position := s.position + PREV_TAG_SIZE_FIELD_SIZE, expectingTagHeader := true),
                      src[PREV_TAG_SIZE_FIELD_SIZE..]);
    } else if !s.headerParsed && src != [] && IsTagStart(src[0]) {
      TagIsRemembered(s.(headerParsed := true, expectingTagHeader := true, lastTagSize := 0), src);
    }
  }

  // ---------------------------------------------------------------- when a stream is rejected

  lemma {:induction false} TagsNeverFail(w: bytes, pos: nat)
    ensures !TagsFrom(w, pos).failed
    decreases |w|
  {
    hide WholeTag, TagAt, FindTagStart;
    var v := w[FindTagStart(w)..];
    assert TagsFrom(w, pos) == TakeTag(v, pos + FindTagStart(w));
    if WholeTag(v).Some? && |v[WholeTag(v).value..]| >= PREV_TAG_SIZE_FIELD_SIZE {
      var n := WholeTag(v).value;
      TagsNeverFail(v[n..][PREV_TAG_SIZE_FIELD_SIZE..], pos + FindTagStart(w) + n + PREV_TAG_SIZE_FIELD_SIZE);
    }
  }

  /** The header is wrong: not how one begins, or with an offset inside it, or one far behind it that is there. */
  ghost predicate BadHeader(w: bytes)
    requires |w| >= FLV_HEADER_SIZE
  {
    var offset := U32(w[5], w[6], w[7], w[8]);
    !HasPrefix(w) || offset < 9 || (offset > 65536 && |w| >= offset + 4)
  }

  /** A stream is rejected if and only if it begins neither with a tag nor, once nine bytes are there, with a good header. */
  lemma {:induction false} FailsExactlyWhen(w: bytes)
    ensures Reference(w).failed <==> |w| >= FLV_HEADER_SIZE && !IsTagStart(w[0]) && BadHeader(w)
  {
    hide TagsFrom, HasPrefix, FixedHeaderOk, U32;
    if w != [] && IsTagStart(w[0]) {
      TagsNeverFail(w, 0);
    } else if |w| >= FLV_HEADER_SIZE {
      FixedHeaderExactlyWhen(w);
      var start := DataOffset(w) + PREV_TAG_SIZE_FIELD_SIZE;
      if |w| >= start {
        TagsNeverFail(w[start..], start);
      }
    }
  }
}
