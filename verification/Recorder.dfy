/**
 The FLV recording writer: header and tags go to the current file, a new file starts after each
 header, the first onMetaData tag of a file may be replaced by a larger one, and on close its
 payload is overwritten in place with the final statistics.
 */
module Recorder {
  import opened Bytes
  import opened FlvFraming
  import opened FlvStream
  import opened FlvParser
  import opened FlvWriter
  import opened FlvRoundTrip
  import opened Analyzer
  import opened Metadata

  const METADATA_PATCH_RESERVATION_BYTES: nat := 256

  // ---------------------------------------------------------------- what a file holds

  /** The metadata tag to patch, and what it was taken apart to. */
  datatype Mark = Mark(index: nat, model: Model)

  /** One output file: its header, its tags, and which of them is the metadata tag to patch. */
  datatype Segment = Segment(header: Option<FlvHeader>, tags: seq<FlvTag>, patch: Option<Mark>)
  {
    function Start(): nat { if header.Some? then 13 else 0 }

    ghost predicate Valid() {
      && AllWritable(tags)
      && (header.Some? ==> header.value.version == 1)
      && (patch.Some? ==> patch.value.index < |tags| && tags[patch.value.index].tagType == ScriptData)
    }

    function Bytes(): bytes
      requires AllWritable(tags)
    {
      (if header.Some? then HeaderBytes(header.value) else []) + WrittenTags(tags)
    }

    function Stats(): FlvStats {
      ObserveAll(FreshStats(Start()), tags)
    }
  }

  const Empty := Segment(None, [], None)

  datatype MetadataPatch = MetadataPatch(payloadOffset: nat, payloadSize: nat, model: Model)

  ghost function PatchOf(seg: Segment): (r: Option<MetadataPatch>)
    requires seg.Valid()
    ensures r.Some? <==> seg.patch.Some?
  {
    if seg.patch.None? then None
    else Some(MetadataPatch(Offset(seg.tags, seg.patch.value.index, seg.Start()) + TAG_HEADER_SIZE,
                            |seg.tags[seg.patch.value.index].data|, seg.patch.value.model))
  }

  /** The same file with the payload of its metadata tag replaced. */
  function Patched(seg: Segment, payload: bytes): Segment
    requires seg.patch.Some? && seg.patch.value.index < |seg.tags|
  {
    seg.(tags := seg.tags[seg.patch.value.index := seg.tags[seg.patch.value.index].(data := payload)])
  }

  /** `final` is `seg` but for the bytes of the metadata payload. */
  ghost predicate KeepsAllButPayload(seg: Segment, final: Segment) {
    || final == seg
    || (&& seg.header.Some? && seg.patch.Some? && seg.patch.value.index < |seg.tags|
        && |final.tags| == |seg.tags|
        && var p := final.tags[seg.patch.value.index].data;
        && |p| == |seg.tags[seg.patch.value.index].data|
        && final == Patched(seg, p))
  }

  ghost function PayloadSize(seg: Segment): nat
    requires seg.Valid() && seg.patch.Some?
  {
    |seg.tags[seg.patch.value.index].data|
  }

  /** How the final metadata of a file renders: from its metadata tag and its own statistics. */
  ghost function FinalFor(seg: Segment): Renderer
    requires seg.Valid() && seg.patch.Some?
  {
    SegmentSize(seg);
    FinalRenderer(seg.patch.value.model, seg.Stats())
  }

  /** Closing puts the final metadata in place of the old, unless there is nowhere to put it or it does not fit. */
  ghost predicate ClosesAs(seg: Segment, final: Segment)
    requires seg.Valid()
  {
    if seg.header.None? || seg.patch.None? then final == seg
    else
      || (final == seg && !FinalFor(seg).Fits(0, PayloadSize(seg)))
      || exists count: nat, p: bytes ::
           FinalFor(seg).Fills(count, PayloadSize(seg), p) && final == Patched(seg, p)
  }

  lemma {:induction false} ClosingKeeps(seg: Segment, final: Segment)
    requires seg.Valid() && ClosesAs(seg, final)
    ensures KeepsAllButPayload(seg, final)
  {
    hide FinalFor, Renderer.Monotone, Renderer.Fits, Renderer.Payload;
  }

  // ---------------------------------------------------------------- the file's bytes

  lemma {:induction false} WrittenTagsSplit(tags: seq<FlvTag>, i: nat)
    requires AllWritable(tags) && i < |tags|
    ensures WrittenTags(tags) == WrittenTags(tags[..i]) + (WrittenTag(tags[i]) + WrittenTags(tags[i + 1..]))
  {
    hide WrittenTag;
    if i == 0 {
      assert tags[..0] == [];
    } else {
      WrittenTagsSplit(tags[1..], i - 1);
      assert tags[1..][..i - 1] == tags[..i][1..];
      assert tags[1..][i..] == tags[i + 1..];
    }
  }

  lemma {:induction false} SegmentSize(seg: Segment)
    requires seg.Valid()
    ensures seg.Stats().fileSize == |seg.Bytes()|
    ensures Conserved(seg.Stats(), seg.Start())
  {
    CountersConserve(seg.tags, seg.Start());
    assert seg.tags[..|seg.tags|] == seg.tags;
  }

  /** Adding a tag to a file adds exactly its written form, and the statistics of seeing it. */
  lemma {:induction false} SegmentGrows(seg: Segment, t: FlvTag, patch: Option<Mark>)
    requires seg.Valid() && t.Writable()
    ensures var next := seg.(tags := seg.tags + [t], patch := patch);
            && AllWritable(next.tags)
            && next.Bytes() == seg.Bytes() + WrittenTag(t)
            && next.Stats() == Observe(seg.Stats(), t)
  {
    hide WrittenTag, HeaderBytes, Observe;
    WrittenTagsSnoc(seg.tags, t);
    assert (seg.tags + [t])[..|seg.tags|] == seg.tags;
  }

  /** The bytes of a file before the metadata payload. */
  function Before(seg: Segment): bytes
    requires AllWritable(seg.tags) && seg.patch.Some? && seg.patch.value.index < |seg.tags|
  {
    var t := seg.tags[seg.patch.value.index];
    (if seg.header.Some? then HeaderBytes(seg.header.value) else [])
    + WrittenTags(seg.tags[..seg.patch.value.index])
    + TagHeaderBytes(t.tagType, t.isFiltered, |t.data|, t.timestampMs, 0)
  }

  /** The bytes of a file after the metadata payload. */
  function After(seg: Segment): bytes
    requires AllWritable(seg.tags) && seg.patch.Some? && seg.patch.value.index < |seg.tags|
  {
    U32Bytes(seg.tags[seg.patch.value.index].Size()) + WrittenTags(seg.tags[seg.patch.value.index + 1..])
  }

  lemma {:induction false} AroundPayload(seg: Segment)
    requires seg.Valid() && seg.patch.Some?
    ensures seg.Bytes() == Before(seg) + seg.tags[seg.patch.value.index].data + After(seg)
    ensures |Before(seg)| == PatchOf(seg).value.payloadOffset
  {
    hide WrittenTags, HeaderBytes, TagHeaderBytes, U32Bytes;
    var i := seg.patch.value.index;
    WrittenTagsSplit(seg.tags, i);
    var head := if seg.header.Some? then HeaderBytes(seg.header.value) else [];
    var w, t, later := WrittenTags(seg.tags[..i]), seg.tags[i], WrittenTags(seg.tags[i + 1..]);
    var h, size := TagHeaderBytes(t.tagType, t.isFiltered, |t.data|, t.timestampMs, 0), U32Bytes(t.Size());
    assert WrittenTag(t) == h + t.data + size;
    assert head + (w + ((h + t.data + size) + later)) == (head + w + h) + t.data + (size + later);
  }

  lemma {:induction false} PatchedAround(seg: Segment, p: bytes)
    requires seg.Valid() && seg.patch.Some? && |p| == |seg.tags[seg.patch.value.index].data|
    ensures Patched(seg, p).Valid()
    ensures Before(Patched(seg, p)) == Before(seg) && After(Patched(seg, p)) == After(seg)
  {
    hide WrittenTags, HeaderBytes, TagHeaderBytes, U32Bytes;
    var i, tags, tags' := seg.patch.value.index, seg.tags, Patched(seg, p).tags;
    assert tags'[..i] == tags[..i] && tags'[i + 1..] == tags[i + 1..];
  }

  /** Overwriting the payload in place gives exactly the file that holds the new payload. */
  lemma {:induction false} PatchedBytes(seg: Segment, p: bytes)
    requires seg.Valid() && seg.patch.Some? && |p| == |seg.tags[seg.patch.value.index].data|
    ensures Patched(seg, p).Valid()
    ensures var at := PatchOf(seg).value.payloadOffset;
            && at + |p| <= |seg.Bytes()|
            && Patched(seg, p).Bytes() == seg.Bytes()[..at] + p + seg.Bytes()[at + |p|..]
  {
    AroundPayload(seg);
    PatchedAround(seg, p);
    AroundPayload(Patched(seg, p));
    hide PatchOf, Before, After, Segment.Bytes;
    Splice(Before(seg), seg.tags[seg.patch.value.index].data, p, After(seg));
  }

  lemma {:induction false} Splice(a: bytes, old': bytes, new': bytes, b: bytes)
    requires |old'| == |new'|
    ensures var s := a + old' + b;
            a + new' + b == s[..|a|] + new' + s[|a| + |new'|..]
  {}

  // ---------------------------------------------------------------- what a closed file parses to

  /** The synchronous parser's view of a file with a header. */
  function Found(file: bytes): seq<Located>
    requires |file| >= 9
  {
    SyncTags(file[9..], 9)
  }

  lemma {:induction false} FoundInSegment(seg: Segment)
    requires seg.Valid() && seg.header.Some?
    ensures |seg.Bytes()| >= 9
    ensures Found(seg.Bytes()) == Laid(seg.tags, 13)
  {
    assert seg.Bytes() == FileBytes(seg.header.value, seg.tags);
    hide *;
    SyncRoundTrip(seg.header.value, seg.tags, Ignore);
    ModesAgree(seg.Bytes()[9..], 9, 0, Ignore);
    FoundIs(seg.Bytes());
    SegmentHasHeader(seg);
  }

  lemma {:induction false} FoundIs(file: bytes)
    requires |file| >= 9
    ensures Found(file) == SyncTags(file[9..], 9)
  {}

  lemma {:induction false} SegmentHasHeader(seg: Segment)
    requires AllWritable(seg.tags) && seg.header.Some?
    ensures |seg.Bytes()| >= 13
  {
    hide WrittenTags;
  }

  predicate IsPatched(seg: Segment, i: nat) { seg.patch.Some? && seg.patch.value.index == i }

  /** Equal but for the payload bytes. */
  predicate SameShape(a: Located, b: Located) {
    && a.position == b.position
    && a.tag.tagType == b.tag.tagType && a.tag.isFiltered == b.tag.isFiltered
    && a.tag.timestampMs == b.tag.timestampMs && |a.tag.data| == |b.tag.data|
  }

  /**
   Closing changes no byte outside the metadata payload and not the length, so the file parses to
   the same tags at the same offsets; only the metadata tag may hold other bytes.
   */
  lemma {:induction false} ClosingKeepsLayout(seg: Segment, final: Segment)
    requires seg.Valid() && seg.header.Some? && ClosesAs(seg, final)
    ensures final.Valid() && final.header == seg.header
    ensures |final.Bytes()| == |seg.Bytes()| >= 9
    ensures seg.patch.None? ==> final.Bytes() == seg.Bytes()
    ensures seg.patch.Some? ==>
              var at, n := PatchOf(seg).value.payloadOffset, PatchOf(seg).value.payloadSize;
              && at + n <= |seg.Bytes()|
              && final.Bytes()[..at] == seg.Bytes()[..at] && final.Bytes()[at + n..] == seg.Bytes()[at + n..]
    ensures var before, after := Found(seg.Bytes()), Found(final.Bytes());
            && |before| == |after| == |seg.tags|
            && forall i :: 0 <= i < |seg.tags| ==>
                 SameShape(before[i], after[i]) && (before[i] == after[i] || IsPatched(seg, i))
  {
    ClosingKeeps(seg, final);
    hide ClosesAs;
    if seg.patch.Some? {
      PatchedBytes(seg, final.tags[seg.patch.value.index].data);
    }
    FoundInSegment(seg);
    FoundInSegment(final);
    hide Segment.Bytes, Found, PatchOf;
    LaidShape(seg, final);
  }

  lemma {:induction false} LaidShape(seg: Segment, final: Segment)
    requires seg.Valid() && final.Valid() && KeepsAllButPayload(seg, final)
    ensures var before, after := Laid(seg.tags, 13), Laid(final.tags, 13);
            && |before| == |after| == |seg.tags|
            && forall i :: 0 <= i < |seg.tags| ==>
                 SameShape(before[i], after[i]) && (before[i] == after[i] || IsPatched(seg, i))
  {
    hide Laid, Offset;
    LaidLength(seg.tags, 13);
    LaidLength(final.tags, 13);
    forall i | 0 <= i < |seg.tags|
      ensures SameShape(Laid(seg.tags, 13)[i], Laid(final.tags, 13)[i])
      ensures Laid(seg.tags, 13)[i] == Laid(final.tags, 13)[i] || IsPatched(seg, i)
    {
      OffsetIsLaidPosition(seg.tags, i, 13);
      OffsetIsLaidPosition(final.tags, i, 13);
      SameOffsets(seg, final, i);
    }
  }

  lemma {:induction false} LaidLength(tags: seq<FlvTag>, pos: nat)
    ensures |Laid(tags, pos)| == |tags|
    decreases tags
  {
    if tags != [] {
      LaidLength(tags[1..], pos + tags[0].Size() + PREV_TAG_SIZE_FIELD_SIZE);
    }
  }

  lemma {:induction false} SameOffsets(seg: Segment, final: Segment, i: nat)
    requires seg.Valid() && final.Valid() && KeepsAllButPayload(seg, final) && i <= |seg.tags|
    ensures Offset(seg.tags, i, 13) == Offset(final.tags, i, 13)
  {
    if i > 0 {
      SameOffsets(seg, final, i - 1);
      OffsetStep(seg.tags, i - 1, 13);
      OffsetStep(final.tags, i - 1, 13);
    }
  }

  lemma {:induction false} OffsetStep(tags: seq<FlvTag>, i: nat, start: nat)
    requires AllWritable(tags) && i < |tags|
    ensures Offset(tags, i + 1, start) == Offset(tags, i, start) + FootPrint(tags[i])
  {
    assert tags[..i + 1][..i] == tags[..i];
    OffsetNext(tags[..i + 1], start);
    assert tags[..i + 1][..i + 1] == tags[..i + 1];
    assert tags[..i][..i] == tags[..i];
  }

  /**
   The analyzer is an exact offset oracle: every entry of the keyframe index of a closed file is
   the offset and time of a keyframe that the parser finds in that file.
   */
  lemma {:induction false} IndexPointsAtKeyframes(seg: Segment, final: Segment, j: nat) returns (i: nat)
    requires seg.Valid() && seg.header.Some? && ClosesAs(seg, final)
    requires j < |VideoOf(seg.Stats()).keyframes|
    ensures final.Valid() && |final.Bytes()| >= 9 && i < |Found(final.Bytes())|
    ensures var entry, found := VideoOf(seg.Stats()).keyframes[j], Found(final.Bytes())[i];
            && found.position == entry.filePosition
            && IsKeyFrame(found.tag) && !IsVideoSequenceHeader(found.tag)
            && entry.timestampS == found.tag.timestampMs as real / 1000.0
  {
    ClosingKeepsLayout(seg, final);
    hide ClosesAs;
    FoundInSegment(seg);
    IndexIsExact(seg.tags, 13);
    ChosenInRange(seg.tags);
    i := Chosen(seg.tags)[j];
    OffsetIsLaidPosition(seg.tags, i, 13);
    assert !IsPatched(seg, i);
  }

  /** A summary of the file itself: of its bytes and of the tags in it. */
  ghost predicate TellsTheTruth(x: Summary, seg: Segment)
    requires seg.Valid()
  {
    var tags, audio, video := seg.tags, OfKind(seg.tags, Audio), OfKind(seg.tags, Video);
    && (seg.Stats().hasVideo ==> seg.Stats().video.Some?) && x.duration == CalculateDuration(seg.Stats())
    && x.fileSize == |seg.Bytes()|
    && x.lastTimestamp == (if tags == [] then 0 else tags[|tags| - 1].timestampMs)
    && (x.hasAudio <==> audio != []) && x.audioSize == PayloadSum(audio)
    && (x.hasVideo <==> video != []) && (x.video.Some? <==> video != [])
    && (x.video.Some? ==> VideoTruth(x.video.value, tags, x.lastTimestamp, seg.Start()))
  }

  ghost predicate VideoTruth(v: VideoSummary, tags: seq<FlvTag>, lastTimestamp: u32, start: nat)
    requires AllWritable(tags)
  {
    var chosen := Chosen(tags);
    && v.dataSize == PayloadSum(OfKind(tags, Video)) && (v.hasKeyframes <==> chosen != [])
    && v.lastKeyframeTimestamp == LastChosen(tags, chosen)
    && (v.canSeekToEnd <==> LastChosen(tags, chosen) == lastTimestamp)
    && (chosen != [] ==>
          chosen[|chosen| - 1] < |tags| && v.lastKeyframePosition == Offset(tags, chosen[|chosen| - 1], start))
  }

  lemma {:induction false} SummaryTellsTheTruth(seg: Segment)
    requires seg.Valid() && (seg.Stats().hasVideo ==> seg.Stats().video.Some?)
    ensures TellsTheTruth(SummaryOf(seg.Stats()), seg)
  {
    SegmentSize(seg);
    CountersAreSums(seg.tags, seg.Start());
    if seg.Stats().video.Some? {
      VideoSummaryIsTrue(seg.tags, seg.Start());
    }
    hide ObserveAll, OfKind, PayloadSum, CalculateDuration, Segment.Bytes, Conserved, VideoTruth, Segment.Valid;
  }

  lemma {:induction false} VideoSummaryIsTrue(tags: seq<FlvTag>, start: nat)
    requires AllWritable(tags)
    requires var st := ObserveAll(FreshStats(start), tags); st.video.Some?
    ensures var st := ObserveAll(FreshStats(start), tags);
            VideoTruth(SummaryOf(st).video.value, tags, st.lastTimestamp, start)
  {
    CountersAreSums(tags, start);
    KeyframesAreChosen(tags, start);
    hide ObserveAll, OfKind, PayloadSum, Chosen, LastChosen, Offset, CalculateDuration;
  }

  lemma {:induction false} KeyframesAreChosen(tags: seq<FlvTag>, start: nat)
    requires AllWritable(tags)
    ensures var v, chosen := VideoOf(ObserveAll(FreshStats(start), tags)), Chosen(tags);
            && (v.keyframes != [] <==> chosen != []) && v.lastKeyframeTimestamp == LastChosen(tags, chosen)
            && (chosen != [] ==>
                  chosen[|chosen| - 1] < |tags|
                  && v.lastKeyframePosition == Offset(tags, chosen[|chosen| - 1], start))
  {
    IndexIsExact(tags, start);
    LastKeyframeIsLastEntry(tags, start);
    hide ObserveAll, Chosen, LastChosen, Offset;
  }

  /**
   With a header, a metadata tag, and room for at least an empty index, the payload of the closed file is
   a rendering that tells the truth about that file, with the most index entries that fit.
   */
  lemma {:induction false} ClosedPayloadTellsTheTruth(seg: Segment, final: Segment)
    returns (count: nat, p: bytes)
    requires seg.Valid() && seg.header.Some? && seg.patch.Some? && ClosesAs(seg, final)
    requires FinalFor(seg).Fits(0, PayloadSize(seg))
    ensures final.Valid() && PatchOf(seg).value.payloadOffset + |p| <= |final.Bytes()|
    ensures final.Bytes()[PatchOf(seg).value.payloadOffset..PatchOf(seg).value.payloadOffset + |p|] == p
    ensures |p| == PayloadSize(seg) && (seg.Stats().hasVideo ==> seg.Stats().video.Some?)
    ensures var m, st := seg.patch.value.model, seg.Stats();
            && TellsTheTruth(SummaryOf(st), seg)
            && Renders(m, SummaryOf(st), IndexFor(m, st, count), p)
            && (m.spacer.Some? && st.video.Some? ==>
                  && 2 * count <= m.spacer.value && count <= |st.video.value.keyframes|
                  && IndexFor(m, st, count) == Entries(st.video.value.keyframes[..count]))
            && (FinalFor(seg).Monotone() ==>
                  forall c: nat :: c > count && FinalFor(seg).Allowed(c) ==>
                    Overflows(m, SummaryOf(st), IndexFor(m, st, c), PayloadSize(seg)))
  {
    SegmentSize(seg);
    SummaryTellsTheTruth(seg);
    hide TellsTheTruth, Segment.Bytes, Segment.Stats, FinalRenderer, IndexFor, Renders, Overflows, SummaryOf, PatchOf;
    hide Renderer.Fits, Renderer.Payload, Renderer.Monotone, Renderer.Allowed;
    count, p :| FinalFor(seg).Fills(count, PayloadSize(seg), p) && final == Patched(seg, p);
    FinalPayloadIs(seg.patch.value.model, seg.Stats(), count, PayloadSize(seg), p);
    PatchedBytes(seg, p);
    InTheMiddle(seg.Bytes(), p, PatchOf(seg).value.payloadOffset);
  }

  lemma {:induction false} InTheMiddle(s: bytes, p: bytes, at: nat)
    requires at + |p| <= |s|
    ensures (s[..at] + p + s[at + |p|..])[at..at + |p|] == p
  {}

  /** In every other case closing leaves the file as it is. */
  lemma {:induction false} ClosedUnchanged(seg: Segment, final: Segment)
    requires seg.Valid() && ClosesAs(seg, final)
    requires seg.header.None? || seg.patch.None? || (FinalFor(seg).Monotone() && !FinalFor(seg).Fits(0, PayloadSize(seg)))
    ensures final == seg
  {
    hide FinalFor, Renderer.Payload;
    if seg.header.Some? && seg.patch.Some? {
      var r, size := FinalFor(seg), PayloadSize(seg);
      forall count: nat, p: bytes ensures !r.Fills(count, size, p) {
        assert r.Allowed(0);
      }
    }
  }

  // ---------------------------------------------------------------- what should happen to a stream

  /** What the metadata code makes of a tag: not onMetaData, or a model with or without a spacer. */
  datatype Plan = NotMetadata | OnMetaData(canonicalSize: Option<nat>, renderer: Renderer, model: Model)

  datatype Input = Input(item: FlvData, plan: Plan)

  /** What became of an item: the tag as it went to the file, and its model if it is the one to patch. */
  datatype Logged = GotHeader(header: FlvHeader) | Stored(tag: FlvTag, patch: Option<Model>) | Ignored

  predicate IsMetadata(t: FlvTag, plan: Plan) {
    t.tagType == ScriptData && !t.isFiltered && plan.OnMetaData?
  }

  /** The size of the roomier payload that a metadata tag without a spacer gets. */
  function Roomier(plan: Plan): nat
    requires plan.OnMetaData? && plan.canonicalSize.Some?
  {
    plan.canonicalSize.value + METADATA_PATCH_RESERVATION_BYTES
  }

  /** There is room already, or a roomier payload can be had. */
  predicate HasRoom(plan: Plan)
    requires plan.OnMetaData?
  {
    || plan.model.spacer.Some?
    || (plan.canonicalSize.Some? && Roomier(plan) <= MAX_FLV_TAG_PAYLOAD_SIZE && plan.renderer.Fits(0, Roomier(plan)))
  }

  ghost predicate Storable(t: FlvTag, plan: Plan) {
    t.Writable() && (IsMetadata(t, plan) ==> Dependable(plan.renderer) && HasRoom(plan) && DependableModel(plan.model))
  }

  /** Whatever the recording turns out to be, its final metadata can be rendered and padded. */
  ghost predicate DependableModel(m: Model) {
    forall st: FlvStats :: (st.hasVideo ==> st.video.Some?) ==> Dependable(FinalRenderer(m, st))
  }

  /** A tag is stored as it came, or with a roomier payload when it is the first onMetaData tag of its file. */
  ghost predicate StoredAs(t: FlvTag, input: Input, first: bool)
    requires input.item.Tag?
  {
    if first && input.plan.OnMetaData? && input.plan.model.spacer.None?
    then input.plan.canonicalSize.Some? && t == input.item.tag.(data := t.data)
         && exists count: nat :: input.plan.renderer.Fills(count, Roomier(input.plan), t.data)
    else t == input.item.tag
  }

  ghost predicate Records(input: Input, hasPatch: bool, e: Logged) {
    match input.item
    case Header(h) => e == GotHeader(h)
    case Tag(t) =>
      && e.Stored?
      && e.patch == (if IsMetadata(t, input.plan) && !hasPatch then Some(input.plan.model) else None)
      && StoredAs(e.tag, input, e.patch.Some?)
    case _ => e == Ignored
  }

  /** The files so far: those complete, the one being filled, and a header not yet written. */
  datatype Layout = Layout(done: seq<Segment>, current: Segment, pending: Option<FlvHeader>)

  function Add(seg: Segment, header: Option<FlvHeader>, t: FlvTag, patch: Option<Model>): Segment {
    Segment(if header.Some? then header else seg.header, seg.tags + [t],
            if patch.Some? then Some(Mark(|seg.tags|, patch.value)) else seg.patch)
  }

  /** A tag after a header starts a new file if the current one has tags; every other tag goes to the current one. */
  function Advance(l: Layout, e: Logged): Layout {
    match e
    case GotHeader(h) => l.(pending := Some(h))
    case Ignored => l
    case Stored(t, patch) =>
      if l.pending.Some? && l.current.tags != []
      then Layout(l.done + [l.current], Add(Empty, l.pending, t, patch), None)
      else Layout(l.done, Add(l.current, l.pending, t, patch), None)
  }

  function LayoutOf(log: seq<Logged>): Layout {
    if log == [] then Layout([], Empty, None)
    else Advance(LayoutOf(log[..|log| - 1]), log[|log| - 1])
  }

  function TagsIn(segs: seq<Segment>): seq<FlvTag> {
    if segs == [] then [] else TagsIn(segs[..|segs| - 1]) + segs[|segs| - 1].tags
  }

  function StoredTags(log: seq<Logged>): seq<FlvTag> {
    if log == [] then []
    else
      var e := log[|log| - 1];
      StoredTags(log[..|log| - 1]) + if e.Stored? then [e.tag] else []
  }

  /** Every tag is in exactly one file, and the files in order hold the tags in order. */
  lemma {:induction false} NoTagIsLost(log: seq<Logged>)
    ensures var l := LayoutOf(log); TagsIn(l.done) + l.current.tags == StoredTags(log)
  {
    hide Advance, TagsIn;
    if log == [] {
      NoFiles();
    } else {
      NoTagIsLost(log[..|log| - 1]);
      AdvanceKeepsTags(LayoutOf(log[..|log| - 1]), log[|log| - 1]);
    }
  }

  lemma {:induction false} NoFiles()
    ensures TagsIn([]) == []
  {}

  lemma {:induction false} AdvanceKeepsTags(l: Layout, e: Logged)
    ensures var m := Advance(l, e);
            TagsIn(m.done) + m.current.tags ==
            TagsIn(l.done) + l.current.tags + if e.Stored? then [e.tag] else []
  {
    assert (l.done + [l.current])[..|l.done|] == l.done;
    assert TagsIn(l.done + [l.current]) == TagsIn(l.done) + l.current.tags;
    hide TagsIn;
    if e.Stored? {
      assert TagsIn(l.done) + (l.current.tags + [e.tag]) == TagsIn(l.done) + l.current.tags + [e.tag];
    }
  }

  function WithHeader(seg: Segment, header: Option<FlvHeader>): Segment {
    if header.Some? then seg.(header := header) else seg
  }

  /** What adding a tag does to each thing the strategy keeps about its file. */
  lemma {:induction false} AddGrows(seg: Segment, t: FlvTag, patch: Option<Model>)
    requires seg.Valid() && t.Writable() && (patch.Some? ==> t.tagType == ScriptData)
    ensures var next := Add(seg, None, t, patch);
            && next.Valid()
            && next.Bytes() == seg.Bytes() + WrittenTag(t)
            && next.Stats() == Observe(seg.Stats(), t)
            && PatchOf(next) == if patch.Some? then Some(MetadataPatch(seg.Stats().fileSize + TAG_HEADER_SIZE, |t.data|, patch.value))
                                else PatchOf(seg)
  {
    hide WrittenTags, WrittenTag, Observe;
    var next := Add(seg, None, t, patch);
    SegmentGrows(seg, t, next.patch);
    CountersConserve(seg.tags, seg.Start());
    assert next.tags[..|seg.tags|] == seg.tags == seg.tags[..|seg.tags|];
    if seg.patch.Some? {
      assert next.tags[..seg.patch.value.index] == seg.tags[..seg.patch.value.index];
    }
  }

  // ---------------------------------------------------------------- the strategy

  datatype Prepared = PrepareFailed | Unchanged | Replaced(tag: FlvTag)

  /** Writes over `out` from an offset on; the file grows if the write runs past its end. */
  function Overwrite(out: bytes, at: nat, p: bytes): bytes
    requires at <= |out|
  {
    out[..at] + p + if at + |p| <= |out| then out[at + |p|..] else []
  }

  class FlvFormatStrategy {
    const analyzer: FlvAnalyzer
    var pendingHeader: Option<FlvHeader>
    var lastHeaderReceived: bool
    var currentTagCount: nat
    var metadataPatch: Option<MetadataPatch>

    constructor ()
      ensures fresh(analyzer)
      ensures pendingHeader == None && !lastHeaderReceived && currentTagCount == 0 && metadataPatch == None
    {
      analyzer := new FlvAnalyzer();
      pendingHeader, lastHeaderReceived, currentTagCount, metadataPatch := None, false, 0, None;
    }

    /** The current file is `seg`, and everything kept about it agrees with its bytes. */
    ghost predicate Mirrors(writer: FlvWriter, seg: Segment)
      reads this, analyzer, writer
    {
      && seg.Valid()
      && writer.out == seg.Bytes()
      && analyzer.stats == seg.Stats()
      && analyzer.headerAnalyzed == seg.header.Some?
      && currentTagCount == |seg.tags|
      && metadataPatch == PatchOf(seg)
    }

    predicate ShouldRotateFile()
      reads this
    {
      lastHeaderReceived && currentTagCount > 0
    }

    method OnFileOpen(writer: FlvWriter)
      requires writer.out == []
      modifies this, analyzer
      ensures Mirrors(writer, Empty)
      ensures pendingHeader == old(pendingHeader) && !lastHeaderReceived
    {
      analyzer.Reset();
      currentTagCount := 0;
      metadataPatch := None;
      lastHeaderReceived := false;
    }

    method PrepareMetadataPatch(t: FlvTag, tagStart: nat, plan: Plan) returns (r: Prepared)
      modifies this`metadataPatch
      ensures !(old(metadataPatch).None? && IsMetadata(t, plan)) ==> r == Unchanged && metadataPatch == old(metadataPatch)
      ensures old(metadataPatch).None? && IsMetadata(t, plan) && plan.model.spacer.Some? ==>
                r == Unchanged && metadataPatch == Some(MetadataPatch(tagStart + TAG_HEADER_SIZE, |t.data|, plan.model))
      ensures old(metadataPatch).None? && IsMetadata(t, plan) && !plan.model.spacer.Some? && r != PrepareFailed ==>
                && r.Replaced? && r.tag == t.(data := r.tag.data)
                && plan.canonicalSize.Some?
                && (exists count: nat :: plan.renderer.Fills(count, Roomier(plan), r.tag.data))
                && |r.tag.data| == plan.canonicalSize.value + 256 <= MAX_TAG_DATA_SIZE
                && metadataPatch == Some(MetadataPatch(tagStart + TAG_HEADER_SIZE, |r.tag.data|, plan.model))
      ensures old(metadataPatch).None? && IsMetadata(t, plan) && Dependable(plan.renderer) ==>
                (r.PrepareFailed? <==> !HasRoom(plan))
    {
      hide Renderer.Monotone, Renderer.Pads, Renderer.Fits, Renderer.Payload, Renderer.Allowed;
      if metadataPatch.Some? || t.tagType != ScriptData || t.isFiltered || plan.NotMetadata? {
        return Unchanged;
      }
      r := Unchanged;
      var payloadSize := |t.data|;
      if plan.model.spacer.None? {
        if plan.canonicalSize.None? {
          return PrepareFailed;
        }
        var reserved := BuildFixedSize(plan.renderer, Roomier(plan));
        if !reserved.Built? {
          return PrepareFailed;
        }
        r := Replaced(t.(data := reserved.bytes));
        payloadSize := |reserved.bytes|;
      }
      metadataPatch := Some(MetadataPatch(tagStart + TAG_HEADER_SIZE, payloadSize, plan.model));
    }

    /**
     Writes one item to the current file `seg`; the driver has started a new file if a header is
     waiting and the old one has tags. On success the strategy mirrors the longer file, and the
     number returned is the number of bytes it grew by.
     */
    method WriteItem(writer: FlvWriter, input: Input, ghost seg: Segment)
      returns (ok: bool, bytesWritten: nat, e: Logged)
      requires Mirrors(writer, seg) && (pendingHeader.Some? ==> seg == Empty)
      requires input.item.Tag? ==> |input.item.tag.data| < 0x1_0000_0000
      modifies this, analyzer, writer
      ensures ok ==> Records(input, seg.patch.Some?, e)
      ensures ok ==> |writer.out| == |old(writer.out)| + bytesWritten
      ensures ok && e.Stored? ==>
                && Mirrors(writer, Add(seg, old(pendingHeader), e.tag, e.patch))
                && pendingHeader == None && !lastHeaderReceived
      ensures ok && e.GotHeader? ==> Mirrors(writer, seg) && pendingHeader == Some(e.header) && lastHeaderReceived
      ensures ok && e.Ignored? ==>
                Mirrors(writer, seg) && pendingHeader == old(pendingHeader) && lastHeaderReceived == old(lastHeaderReceived)
      ensures (Plain(input) || Welcome(input)) && (old(pendingHeader).Some? ==> old(pendingHeader).value.version == 1) ==> ok
    {
      ok, bytesWritten, e := true, 0, Ignored;
      match input.item {
        case Header(h) =>
          pendingHeader := Some(h);
          lastHeaderReceived := true;
          e := GotHeader(h);
        case Tag(t) =>
          ok, bytesWritten, e := WriteTagItem(writer, t, input.plan, seg);
        case Split =>
        case EndOfSequence =>
      }
    }

    method WriteTagItem(writer: FlvWriter, t: FlvTag, plan: Plan, ghost seg: Segment)
      returns (ok: bool, bytesWritten: nat, e: Logged)
      requires Mirrors(writer, seg) && (pendingHeader.Some? ==> seg == Empty)
      requires |t.data| < 0x1_0000_0000
      modifies this, analyzer, writer
      ensures ok ==> e.Stored? && Records(Input(Tag(t), plan), seg.patch.Some?, e)
      ensures ok ==> |writer.out| == |old(writer.out)| + bytesWritten
      ensures ok ==> Mirrors(writer, Add(seg, old(pendingHeader), e.tag, e.patch))
      ensures ok ==> pendingHeader == None && !lastHeaderReceived
      ensures Storable(t, plan) && (old(pendingHeader).Some? ==> old(pendingHeader).value.version == 1) ==> ok
    {
      hide Mirrors;
      e := Ignored;
      ghost var seg' := WithHeader(seg, pendingHeader);
      ok, bytesWritten := FlushHeader(writer, seg);
      if !ok {
        return;
      }
      var n;
      ok, n, e := StoreTag(writer, t, plan, seg');
      bytesWritten := bytesWritten + n;
    }

    /** Writes a waiting header at the start of a file. */
    method FlushHeader(writer: FlvWriter, ghost seg: Segment) returns (ok: bool, bytesWritten: nat)
      requires Mirrors(writer, seg) && (pendingHeader.Some? ==> seg == Empty)
      modifies this, analyzer, writer
      ensures pendingHeader == None && !lastHeaderReceived
      ensures ok ==> |writer.out| == |old(writer.out)| + bytesWritten
      ensures ok ==> Mirrors(writer, WithHeader(seg, old(pendingHeader)))
      ensures ok <==> old(pendingHeader).None? || old(pendingHeader).value.version == 1
    {
      lastHeaderReceived := false;
      if pendingHeader.None? {
        return true, 0;
      }
      var header := pendingHeader.value;
      pendingHeader := None;
      ok := analyzer.AnalyzeHeader(header);
      bytesWritten := 13;
      if ok {
        assert Empty.Bytes() == [] && WithHeader(Empty, Some(header)).Bytes() == HeaderBytes(header);
        hide HeaderBytes;
        writer.WriteHeader(header);
      }
    }

    /** Stores one tag, replaced first if it is metadata to be patched later. */
    method StoreTag(writer: FlvWriter, t: FlvTag, plan: Plan, ghost seg: Segment)
      returns (ok: bool, bytesWritten: nat, e: Logged)
      requires Mirrors(writer, seg) && |t.data| < 0x1_0000_0000
      modifies this, analyzer, writer
      ensures pendingHeader == old(pendingHeader) && lastHeaderReceived == old(lastHeaderReceived)
      ensures ok ==> e.Stored? && Records(Input(Tag(t), plan), seg.patch.Some?, e)
      ensures ok ==> |writer.out| == |old(writer.out)| + bytesWritten
      ensures ok ==> Mirrors(writer, Add(seg, None, e.tag, e.patch))
      ensures Storable(t, plan) ==> ok
    {
      hide Segment.Bytes, Segment.Stats, Segment.Valid, Observe, WrittenTag, PatchOf, Dependable, HasRoom, DependableModel, Renderer.Fills;
      ok, bytesWritten, e := false, 0, Ignored;
      currentTagCount := currentTagCount + 1;
      var tagStart := analyzer.stats.fileSize;
      var patch := if IsMetadata(t, plan) && metadataPatch.None? then Some(plan.model) else None;
      var prepared := PrepareMetadataPatch(t, tagStart, plan);
      if prepared.PrepareFailed? {
        return;
      }
      var stored := if prepared.Replaced? then prepared.tag else t;
      ok := analyzer.AnalyzeTag(stored);
      if !ok {
        return;
      }
      ok := writer.WriteTag(stored);
      if ok {
        bytesWritten := 11 + 4 + |stored.data|;
        e := Stored(stored, patch);
        AddGrows(seg, stored, patch);
      }
    }

    /**
     Closes the current file: if it has a header and a metadata tag to patch, the final payload is
     written over the old one, unless it does not fit.
     */
    method OnFileClose(writer: FlvWriter, ghost seg: Segment)
      returns (ok: bool, stats: Option<FlvStats>, ghost final: Segment)
      requires Mirrors(writer, seg)
      modifies this, analyzer, writer
      ensures pendingHeader == old(pendingHeader) && lastHeaderReceived == old(lastHeaderReceived)
      ensures ok ==> ClosesAs(seg, final) && final.Valid() && writer.out == final.Bytes()
      ensures ok ==> |writer.out| == |old(writer.out)|
      ensures ok ==> stats == if seg.header.Some? then Some(seg.Stats()) else None
      ensures seg.patch.None? || DependableModel(seg.patch.value.model) ==> ok
    {
      hide ClosesAs, FinalFor, FinalRenderer, Renderer.Fills, Renderer.Fits, DependableModel, PayloadSize;
      final := seg;
      SegmentSize(seg);
      ClosesIfNothing(seg);
      stats := if analyzer.headerAnalyzed then Some(analyzer.stats) else None;
      if stats.Some? && metadataPatch.Some? {
        var patch := metadataPatch.value;
        metadataPatch := None;
        PatchSize(seg);
        var metadata := BuildFixedSize(FinalRenderer(patch.model, stats.value), patch.payloadSize);
        hide Renderer.Monotone, Renderer.Pads;
        DependableFor(seg);
        match metadata {
          case Built(b, count, _) =>
            ClosesIfFilled(seg, count, b);
            PatchedBytes(seg, b);
            final := Patched(seg, b);
            hide Segment.Bytes, Segment.Stats;
            writer.out := Overwrite(writer.out, patch.payloadOffset, b);
          case TooLarge =>
            ClosesIfTooLarge(seg);
          case Failed =>
            return false, stats, final;
        }
      }
      analyzer.Reset();
      ok := true;
    }
  }

  lemma {:induction false} ClosesIfNothing(seg: Segment)
    requires seg.Valid()
    ensures seg.header.None? || seg.patch.None? ==> ClosesAs(seg, seg)
  {}

  lemma {:induction false} ClosesIfTooLarge(seg: Segment)
    requires seg.Valid() && seg.patch.Some? && !FinalFor(seg).Fits(0, PayloadSize(seg))
    ensures ClosesAs(seg, seg)
  {}

  lemma {:induction false} ClosesIfFilled(seg: Segment, count: nat, p: bytes)
    requires seg.Valid() && seg.header.Some? && seg.patch.Some? && FinalFor(seg).Fills(count, PayloadSize(seg), p)
    ensures |p| == |seg.tags[seg.patch.value.index].data| && ClosesAs(seg, Patched(seg, p))
  {
    hide FinalFor, Renderer.Fits, Renderer.Payload, Renderer.Monotone, Renderer.Allowed;
  }

  lemma {:induction false} DependableFor(seg: Segment)
    requires seg.Valid() && seg.patch.Some?
    ensures (seg.Stats().hasVideo ==> seg.Stats().video.Some?)
    ensures FinalFor(seg) == FinalRenderer(seg.patch.value.model, seg.Stats())
    ensures DependableModel(seg.patch.value.model) ==>
              FinalFor(seg).Monotone() && FinalFor(seg).Pads(PayloadSize(seg))
  {
    SegmentSize(seg);
    hide Segment.Stats, FinalRenderer, Renderer.Monotone, Renderer.Pads, PayloadSize;
  }

  lemma {:induction false} PatchSize(seg: Segment)
    requires seg.Valid() && seg.patch.Some?
    ensures PatchOf(seg).value.payloadSize == PayloadSize(seg) <= MAX_FLV_TAG_PAYLOAD_SIZE
    ensures PatchOf(seg).value.model == seg.patch.value.model
  {}

  // ---------------------------------------------------------------- the whole run

  datatype ClosedFile = ClosedFile(bytes: bytes, size: nat, stats: Option<FlvStats>)

  ghost predicate IsFinal(file: bytes, seg: Segment, final: Segment)
    requires seg.Valid()
  {
    ClosesAs(seg, final) && final.Valid() && file == final.Bytes()
  }

  /** The file holds this segment, and both the size reported and the analyzer's own are its length. */
  ghost predicate FileOf(f: ClosedFile, seg: Segment) {
    && seg.Valid()
    && f.size == |f.bytes|
    && f.stats == (if seg.header.Some? then Some(seg.Stats()) else None)
    && seg.Stats().fileSize == |f.bytes|
    && exists final :: IsFinal(f.bytes, seg, final)
  }

  ghost predicate FilesMatch(files: seq<ClosedFile>, segs: seq<Segment>) {
    |files| == |segs| && forall i :: 0 <= i < |segs| ==> FileOf(files[i], segs[i])
  }

  method CloseFile(strategy: FlvFormatStrategy, writer: FlvWriter, size: nat, ghost seg: Segment)
    returns (ok: bool, file: ClosedFile)
    requires strategy.Mirrors(writer, seg) && size == |writer.out|
    modifies strategy, strategy.analyzer, writer
    ensures strategy.pendingHeader == old(strategy.pendingHeader)
    ensures strategy.lastHeaderReceived == old(strategy.lastHeaderReceived)
    ensures ok ==> FileOf(file, seg)
    ensures seg.patch.None? || DependableModel(seg.patch.value.model) ==> ok
  {
    hide Segment.Bytes, Segment.Stats, DependableModel, ClosesAs;
    SegmentSize(seg);
    var stats;
    ghost var final;
    ok, stats, final := strategy.OnFileClose(writer, seg);
    file := ClosedFile(writer.out, size, stats);
    assert ok ==> IsFinal(file.bytes, seg, final);
  }

  /** How the driver's state stands to the layout it should produce; it may have started the next file early. */
  ghost predicate Follows(l: Layout, files: seq<ClosedFile>, seg: Segment, lastHeaderReceived: bool) {
    && (seg.tags == [] ==> seg == Empty)
    && if |files| == |l.done|
       then FilesMatch(files, l.done) && seg == l.current && (l.pending.Some? && seg.tags != [] ==> lastHeaderReceived)
       else FilesMatch(files, l.done + [l.current]) && seg == Empty && l.pending.Some? && l.current.tags != []
  }

  lemma {:induction false} RotateFollows(l: Layout, files: seq<ClosedFile>, seg: Segment, f: ClosedFile)
    requires Follows(l, files, seg, true) && seg.tags != [] && l.pending.Some? && FileOf(f, seg)
    ensures Follows(l, files + [f], Empty, false)
  {
    hide FileOf;
  }

  /** Whether the file that the next tag goes to already has a metadata tag to patch. */
  function HasPatch(l: Layout): bool {
    !(l.pending.Some? && l.current.tags != []) && l.current.patch.Some?
  }

  lemma {:induction false} WriteFollows(l: Layout, files: seq<ClosedFile>, seg: Segment, lhr: bool, e: Logged)
    requires Follows(l, files, seg, lhr) && (l.pending.Some? ==> seg == Empty)
    ensures HasPatch(l) == seg.patch.Some?
    ensures e.Stored? ==> Follows(Advance(l, e), files, Add(seg, l.pending, e.tag, e.patch), false)
    ensures e.GotHeader? ==> Follows(Advance(l, e), files, seg, true)
    ensures e.Ignored? ==> Follows(Advance(l, e), files, seg, lhr)
  {
    hide FileOf;
  }

  /** At the end the files are those of the layout, with an empty one after them if the last file was closed early. */
  ghost predicate Recorded(files: seq<ClosedFile>, l: Layout) {
    || FilesMatch(files, l.done + [l.current])
    || (l.pending.Some? && FilesMatch(files, l.done + [l.current, Empty]))
  }

  lemma {:induction false} CloseFollows(l: Layout, files: seq<ClosedFile>, seg: Segment, lhr: bool, f: ClosedFile)
    requires Follows(l, files, seg, lhr) && FileOf(f, seg)
    ensures Recorded(files + [f], l)
  {
    hide FileOf;
    if |files| != |l.done| {
      assert l.done + [l.current, Empty] == (l.done + [l.current]) + [Empty];
    }
  }

  lemma {:induction false} LayoutSnoc(log: seq<Logged>, e: Logged)
    ensures LayoutOf(log + [e]) == Advance(LayoutOf(log), e)
  {
    assert (log + [e])[..|log|] == log;
  }

  /** Each log entry is what became of its item, given the entries before it. */
  ghost predicate LogMatches(inputs: seq<Input>, log: seq<Logged>) {
    |log| <= |inputs| && forall i :: 0 <= i < |log| ==> Records(inputs[i], HasPatch(LayoutOf(log[..i])), log[i])
  }

  lemma {:induction false} LogGrows(inputs: seq<Input>, log: seq<Logged>, e: Logged)
    requires LogMatches(inputs, log) && |log| < |inputs|
    requires Records(inputs[|log|], HasPatch(LayoutOf(log)), e)
    ensures LogMatches(inputs, log + [e])
  {
    hide Records, LayoutOf;
    forall i | 0 <= i < |log + [e]| ensures Records(inputs[i], HasPatch(LayoutOf((log + [e])[..i])), (log + [e])[i]) {
      assert (log + [e])[..i] == log[..i];
      assert log[..|log|] == log;
    }
  }

  // ---------------------------------------------------------------- which files a stream calls for

  /** One file's share of the stream: the header before it, and the tags up to the next header. */
  datatype Share = Share(header: Option<FlvHeader>, items: seq<Input>)

  /** The last header since the last tag. */
  function NewHeader(inputs: seq<Input>): Option<FlvHeader> {
    if inputs == [] then None
    else
      match inputs[|inputs| - 1].item
      case Header(h) => Some(h)
      case Tag(_) => None
      case _ => NewHeader(inputs[..|inputs| - 1])
  }

  /** A tag opens a new share after a header, or when it is the first; otherwise it joins the last one. */
  function SharesOf(inputs: seq<Input>): seq<Share> {
    if inputs == [] then []
    else
      var prev, x := inputs[..|inputs| - 1], inputs[|inputs| - 1];
      var shares := SharesOf(prev);
      if !x.item.Tag? then shares
      else if shares == [] || NewHeader(prev).Some? then shares + [Share(NewHeader(prev), [x])]
      else
        var n := |shares| - 1;
        shares[..n] + [shares[n].(items := shares[n].items + [x])]
  }

  predicate IsMeta(x: Input) {
    x.item.Tag? && x.item.tag.tagType.ScriptData? && !x.item.tag.isFiltered && x.plan.OnMetaData?
  }

  /** A file holds its share: each tag as it came, but for the first metadata tag, which is made roomier and patched. */
  ghost predicate FileFor(seg: Segment, share: Share) {
    && seg.header == share.header && |seg.tags| == |share.items|
    && (forall i :: 0 <= i < |seg.tags| ==> share.items[i].item.Tag? && StoredAs(seg.tags[i], share.items[i], IsPatched(seg, i)))
    && (seg.patch.None? ==> forall i :: 0 <= i < |share.items| ==> !IsMeta(share.items[i]))
    && (seg.patch.Some? ==>
          var i := seg.patch.value.index;
          && i < |share.items| && IsMeta(share.items[i]) && seg.patch.value.model == share.items[i].plan.model
          && forall j :: 0 <= j < i ==> !IsMeta(share.items[j]))
  }

  /** The files begun so far. */
  function Begun(l: Layout): seq<Segment> {
    if l.current.tags == [] then l.done else l.done + [l.current]
  }

  ghost predicate HoldsShares(l: Layout, shares: seq<Share>) {
    var segs := Begun(l);
    && (l.current.tags == [] ==> l.current == Empty && l.done == [])
    && |segs| == |shares| && forall i :: 0 <= i < |segs| ==> FileFor(segs[i], shares[i])
  }

  /** The files on disk are the shares of the stream, one after the other. */
  lemma {:induction false} FilesAreShares(inputs: seq<Input>, log: seq<Logged>)
    requires |log| == |inputs| && LogMatches(inputs, log)
    ensures LayoutOf(log).pending == NewHeader(inputs) && HoldsShares(LayoutOf(log), SharesOf(inputs))
  {
    if log != [] {
      var n := |log| - 1;
      LogBefore(inputs, log);
      FilesAreShares(inputs[..n], log[..n]);
      var l, x, e := LayoutOf(log[..n]), inputs[n], log[n];
      assert Records(x, HasPatch(l), e);
      hide LogMatches, LayoutOf, Records, HoldsShares, StoredAs;
      NextLayout(log);
      RecordsIs(x, HasPatch(l), e);
      if x.item.Tag? {
        ShareGrows(l, SharesOf(inputs[..n]), x, e);
      }
    }
  }

  lemma {:induction false} NextLayout(log: seq<Logged>)
    requires log != []
    ensures LayoutOf(log) == Advance(LayoutOf(log[..|log| - 1]), log[|log| - 1])
  {}

  lemma {:induction false} LogBefore(inputs: seq<Input>, log: seq<Logged>)
    requires |log| == |inputs| && log != [] && LogMatches(inputs, log)
    ensures LogMatches(inputs[..|log| - 1], log[..|log| - 1])
    ensures Records(inputs[|log| - 1], HasPatch(LayoutOf(log[..|log| - 1])), log[|log| - 1])
  {
    hide Records, LayoutOf;
    var n := |log| - 1;
    forall i | 0 <= i < n ensures Records(inputs[..n][i], HasPatch(LayoutOf(log[..n][..i])), log[..n][i]) {
      assert log[..n][..i] == log[..i];
    }
  }

  lemma {:induction false} RecordsIs(x: Input, hasPatch: bool, e: Logged)
    requires Records(x, hasPatch, e)
    ensures x.item.Header? ==> e == GotHeader(x.item.header)
    ensures !x.item.Header? && !x.item.Tag? ==> e == Ignored
    ensures x.item.Tag? ==>
              && e.Stored? && e.patch == (if IsMeta(x) && !hasPatch then Some(x.plan.model) else None)
              && StoredAs(e.tag, x, e.patch.Some?)
  {}

  lemma {:induction false} ShareGrows(l: Layout, shares: seq<Share>, x: Input, e: Logged)
    requires HoldsShares(l, shares) && x.item.Tag? && e.Stored?
    requires e.patch == if IsMeta(x) && !HasPatch(l) then Some(x.plan.model) else None
    requires StoredAs(e.tag, x, e.patch.Some?)
    ensures HoldsShares(Advance(l, e),
                        if shares == [] || l.pending.Some? then shares + [Share(l.pending, [x])]
                        else shares[..|shares| - 1] + [shares[|shares| - 1].(items := shares[|shares| - 1].items + [x])])
  {
    hide StoredAs, FileFor, IsMeta;
    if shares == [] || l.pending.Some? {
      NewFile(l.pending, x, e.tag, e.patch);
    } else {
      GrownFile(l.current, shares[|shares| - 1], x, e.tag, e.patch);
    }
  }

  lemma {:induction false} NewFile(header: Option<FlvHeader>, x: Input, t: FlvTag, patch: Option<Model>)
    requires x.item.Tag? && patch == (if IsMeta(x) then Some(x.plan.model) else None) && StoredAs(t, x, patch.Some?)
    ensures FileFor(Add(Empty, header, t, patch), Share(header, [x]))
  {
    hide StoredAs, IsMeta;
  }

  lemma {:induction false} GrownFile(seg: Segment, share: Share, x: Input, t: FlvTag, patch: Option<Model>)
    requires FileFor(seg, share) && x.item.Tag? && StoredAs(t, x, patch.Some?)
    requires patch == if IsMeta(x) && seg.patch.None? then Some(x.plan.model) else None
    ensures FileFor(Add(seg, None, t, patch), share.(items := share.items + [x]))
  {
    hide StoredAs, IsMeta;
  }

  /** Nothing but a payload may change, only where the patch goes, only without a spacer, and to 256 bytes more. */
  predicate Kept(t: FlvTag, x: Input, patched: bool)
    requires x.item.Tag?
  {
    && t == x.item.tag.(data := t.data)
    && (t.data != x.item.tag.data ==> patched && x.plan.OnMetaData? && x.plan.model.spacer.None?)
    && (patched && x.plan.OnMetaData? && x.plan.model.spacer.None? ==>
          x.plan.canonicalSize.Some? && |t.data| == x.plan.canonicalSize.value + 256)
  }

  lemma {:induction false} FileKeepsItsShare(seg: Segment, share: Share)
    requires FileFor(seg, share)
    ensures forall i :: 0 <= i < |seg.tags| ==>
              share.items[i].item.Tag? && Kept(seg.tags[i], share.items[i], IsPatched(seg, i))
  {
    hide IsMeta, IsPatched;
    forall i | 0 <= i < |seg.tags| ensures Kept(seg.tags[i], share.items[i], IsPatched(seg, i)) {
      assert StoredAs(seg.tags[i], share.items[i], IsPatched(seg, i));
    }
  }

  /** An item that nothing in the writer objects to. */
  predicate Plain(input: Input) {
    match input.item
    case Header(h) => h.version == 1
    case Tag(t) => t.Writable() && !IsMetadata(t, input.plan)
    case _ => true
  }

  /** An item that the writer can store, metadata with room for the final statistics included. */
  ghost predicate Welcome(input: Input) {
    match input.item
    case Header(h) => h.version == 1
    case Tag(t) => Storable(t, input.plan)
    case _ => true
  }

  ghost predicate AllPlain(inputs: seq<Input>) {
    forall i :: 0 <= i < |inputs| ==> Plain(inputs[i])
  }

  ghost predicate AllWelcome(inputs: seq<Input>) {
    forall i :: 0 <= i < |inputs| ==> Welcome(inputs[i])
  }

  lemma {:induction false} WelcomeAt(inputs: seq<Input>, i: nat)
    requires i < |inputs|
    ensures AllPlain(inputs) ==> Plain(inputs[i])
    ensures AllWelcome(inputs) ==> Welcome(inputs[i])
  {
    hide Plain, Welcome;
  }

  lemma {:induction false} LoggedPlainly(input: Input, hasPatch: bool, e: Logged)
    requires Records(input, hasPatch, e)
    ensures (Plain(input) || Welcome(input)) && e.GotHeader? ==> e.header.version == 1
    ensures Plain(input) && e.Stored? ==> e.patch.None?
    ensures Welcome(input) && e.Stored? && e.patch.Some? ==> DependableModel(e.patch.value)
  {
    hide DependableModel, Dependable, HasRoom, StoredAs;
  }

  /**
   The writer task over a whole stream. If no item fails, every item is accounted for in the log,
   and the files on disk are exactly the segments of that log.
   */
  method Record(inputs: seq<Input>)
    returns (ok: bool, files: seq<ClosedFile>, log: seq<Logged>)
    requires forall i :: 0 <= i < |inputs| && inputs[i].item.Tag? ==> |inputs[i].item.tag.data| < 0x1_0000_0000
    ensures ok ==> |log| == |inputs| && LogMatches(inputs, log)
    ensures ok ==> if inputs == [] then files == [] else Recorded(files, LayoutOf(log))
    ensures ok ==> LayoutOf(log).pending == NewHeader(inputs) && HoldsShares(LayoutOf(log), SharesOf(inputs))
    ensures AllPlain(inputs) || AllWelcome(inputs) ==> ok
  {
    hide AllPlain, AllWelcome, Welcome, Plain, DependableModel;
    hide HoldsShares, SharesOf, NewHeader;
    hide Follows, LayoutOf, Advance, LogMatches, Records, Recorded, FileOf, FlvFormatStrategy.Mirrors;
    files, log := [], [];
    if inputs == [] {
      NothingLogged(inputs);
      FilesAreShares(inputs, log);
      return true, files, log;
    }
    var strategy := new FlvFormatStrategy();
    var writer := new FlvWriter();
    strategy.OnFileOpen(writer);
    var size := 0;
    ghost var seg := Empty;
    ghost var plain, welcome := AllPlain(inputs), AllWelcome(inputs);
    NothingLogged(inputs);
    for i := 0 to |inputs|
      invariant fresh(strategy) && fresh(strategy.analyzer) && fresh(writer)
      invariant strategy.Mirrors(writer, seg) && size == |writer.out|
      invariant |log| == i && LogMatches(inputs, log)
      invariant strategy.pendingHeader == LayoutOf(log).pending
      invariant strategy.lastHeaderReceived ==> LayoutOf(log).pending.Some?
      invariant Follows(LayoutOf(log), files, seg, strategy.lastHeaderReceived)
      invariant plain ==> seg.patch.None?
      invariant welcome && seg.patch.Some? ==> DependableModel(seg.patch.value.model)
      invariant (plain || welcome) && strategy.pendingHeader.Some? ==> strategy.pendingHeader.value.version == 1
    {
      WelcomeAt(inputs, i);
      CountIs(strategy, writer, seg);
      if strategy.ShouldRotateFile() {
        var file;
        ok, file := CloseFile(strategy, writer, size, seg);
        if !ok {
          return;
        }
        RotateFollows(LayoutOf(log), files, seg, file);
        files := files + [file];
        writer := new FlvWriter();
        strategy.OnFileOpen(writer);
        seg, size := Empty, 0;
      }
      PendingMeansEmpty(LayoutOf(log), files, seg, strategy.lastHeaderReceived);
      ghost var lhr, pending := strategy.lastHeaderReceived, strategy.pendingHeader;
      var n, e;
      ok, n, e := strategy.WriteItem(writer, inputs[i], seg);
      if !ok {
        return;
      }
      size := size + n;
      WriteFollows(LayoutOf(log), files, seg, lhr, e);
      LoggedPlainly(inputs[i], HasPatch(LayoutOf(log)), e);
      LogGrows(inputs, log, e);
      LayoutSnoc(log, e);
      AdvancePending(LayoutOf(log), e);
      if e.Stored? {
        seg := Add(seg, pending, e.tag, e.patch);
      }
      log := log + [e];
    }
    var file;
    ghost var lhr := strategy.lastHeaderReceived;
    ok, file := CloseFile(strategy, writer, size, seg);
    if ok {
      FilesAreShares(inputs, log);
      CloseFollows(LayoutOf(log), files, seg, lhr, file);
      files := files + [file];
    }
  }

  lemma {:induction false} NothingLogged(inputs: seq<Input>)
    ensures LogMatches(inputs, []) && LayoutOf([]) == Layout([], Empty, None)
    ensures Follows(LayoutOf([]), [], Empty, false)
  {}

  lemma {:induction false} AdvancePending(l: Layout, e: Logged)
    ensures Advance(l, e).pending ==
            match e case GotHeader(h) => Some(h) case Stored(_, _) => None case Ignored => l.pending
  {}

  lemma CountIs(strategy: FlvFormatStrategy, writer: FlvWriter, seg: Segment)
    requires strategy.Mirrors(writer, seg)
    ensures strategy.currentTagCount == |seg.tags|
  {}

  lemma {:induction false} PendingMeansEmpty(l: Layout, files: seq<ClosedFile>, seg: Segment, lhr: bool)
    requires Follows(l, files, seg, lhr) && (lhr ==> seg.tags == [])
    ensures l.pending.Some? ==> seg == Empty
  {}
}
