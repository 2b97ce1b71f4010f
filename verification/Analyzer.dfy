/**
 The running analyzer of a recording: counters, first and last timestamps, and the keyframe
 index with the file offsets it predicts without looking at the file.
 */
module Analyzer {
  import opened Bytes
  import opened FlvFraming
  import opened FlvParser
  import opened FlvWriter
  import opened FlvRoundTrip

  const MIN_INTERVAL_BETWEEN_KEYFRAMES_MS: nat := 1900

  // ---------------------------------------------------------------- tag classes

  /** Frame type 1 in the upper bits of the first payload byte of an unfiltered video tag. */
  predicate IsKeyFrame(t: FlvTag) {
    t.tagType == Video && !t.isFiltered && t.data != [] && t.data[0] / 0x10 % 8 == 1
  }

  /** Packet type 0: in the enhanced format of any codec, in the legacy format of AVC (7) and HEVC (12). */
  predicate IsVideoSequenceHeader(t: FlvTag) {
    && t.tagType == Video && !t.isFiltered && t.data != []
    && if t.data[0] >= 0x80 then t.data[0] % 0x10 == 0
       else (t.data[0] % 0x10 == 7 || t.data[0] % 0x10 == 12) && |t.data| >= 2 && t.data[1] == 0
  }

  /** The video tags that may enter the keyframe index. */
  predicate IsIndexable(t: FlvTag) {
    IsKeyFrame(t) && !IsVideoSequenceHeader(t)
  }

  /** The first payload byte of a video tag: the enhanced-format bit, the frame type, and a codec or packet type. */
  function VideoHead(enhanced: bool, frameType: nat, low: nat): byte
    requires frameType < 8 && low < 16
  {
    (if enhanced then 0x80 else 0) + frameType * 16 + low
  }

  /** Of the unfiltered video tags those of frame type 1 are keyframes, whatever the codec. */
  lemma {:induction false} KeyFramesAre(t: FlvTag, enhanced: bool, frameType: nat, low: nat)
    requires frameType < 8 && low < 16 && t.data != [] && t.data[0] == VideoHead(enhanced, frameType, low)
    ensures IsKeyFrame(t) <==> t.tagType == Video && !t.isFiltered && frameType == 1
  {}

  /** Sequence headers are packets of type 0: of any codec in the enhanced format, of AVC and HEVC in the old one. */
  lemma {:induction false} SequenceHeadersAre(t: FlvTag, enhanced: bool, frameType: nat, low: nat)
    requires frameType < 8 && low < 16 && t.data != [] && t.data[0] == VideoHead(enhanced, frameType, low)
    ensures IsVideoSequenceHeader(t) <==>
              && t.tagType == Video && !t.isFiltered
              && if enhanced then low == 0 else (low == 7 || low == 12) && |t.data| >= 2 && t.data[1] == 0
  {}

  // ---------------------------------------------------------------- statistics

  datatype Keyframe = Keyframe(timestampS: real, filePosition: nat)

  datatype VideoStats = VideoStats(
    tagCount: nat, tagsSize: nat, dataSize: nat,
    lastTimestamp: u32, firstTimestamp: Option<u32>, firstKeyframeTimestamp: Option<u32>,
    lastKeyframeTimestamp: u32, lastKeyframePosition: nat, keyframes: seq<Keyframe>)

  datatype FlvStats = FlvStats(
    fileSize: nat, hasVideo: bool, hasAudio: bool, video: Option<VideoStats>,
    tagCount: nat, audioTagCount: nat, scriptTagCount: nat,
    tagsSize: nat, audioTagsSize: nat, audioDataSize: nat,
    lastTimestamp: u32, lastAudioTimestamp: u32, firstAudioTimestamp: Option<u32>)

  const NoVideo := VideoStats(0, 0, 0, 0, None, None, 0, 0, [])

  function FreshStats(fileSize: nat): FlvStats {
    FlvStats(fileSize, false, false, None, 0, 0, 0, 0, 0, 0, 0, 0, None)
  }

  /** Bytes a tag takes in the file: tag header, payload, PreviousTagSize. */
  function FootPrint(t: FlvTag): nat {
    |t.data| + TAG_HEADER_SIZE + PREV_TAG_SIZE_FIELD_SIZE
  }

  function ObserveAudio(st: FlvStats, t: FlvTag): FlvStats {
    st.(hasAudio := true,
        firstAudioTimestamp := if st.firstAudioTimestamp.None? then Some(t.timestampMs) else st.firstAudioTimestamp,
        audioTagCount := st.audioTagCount + 1,
        audioTagsSize := st.audioTagsSize + FootPrint(t),
        audioDataSize := st.audioDataSize + |t.data|,
        lastAudioTimestamp := t.timestampMs)
  }

  /** Zero stands for "no keyframe yet"; otherwise the minimum interval is respected. */
  predicate AddsKeyframe(v: VideoStats, t: FlvTag) {
    && IsIndexable(t)
    && (v.lastKeyframeTimestamp == 0 || t.timestampMs >= v.lastKeyframeTimestamp + MIN_INTERVAL_BETWEEN_KEYFRAMES_MS)
  }

  function ObserveKeyframe(v: VideoStats, t: FlvTag, position: nat): VideoStats {
    if AddsKeyframe(v, t) then
      v.(keyframes := v.keyframes + [Keyframe(t.timestampMs as real / 1000.0, position)],
         lastKeyframeTimestamp := t.timestampMs,
         lastKeyframePosition := position,
         firstKeyframeTimestamp := if v.firstKeyframeTimestamp.None? then Some(t.timestampMs) else v.firstKeyframeTimestamp)
    else v
  }

  function ObserveVideo(st: FlvStats, t: FlvTag): FlvStats {
    var v := if st.video.None? then NoVideo else st.video.value;
    var w := ObserveKeyframe(v, t, st.fileSize);
    st.(hasVideo := true,
        video := Some(w.(firstTimestamp := if v.firstTimestamp.None? then Some(t.timestampMs) else v.firstTimestamp,
                         tagCount := v.tagCount + 1,
                         tagsSize := v.tagsSize + FootPrint(t),
                         dataSize := v.dataSize + |t.data|,
                         lastTimestamp := t.timestampMs)))
  }

  function ObserveMedia(st: FlvStats, t: FlvTag): FlvStats {
    match t.tagType
    case Audio => ObserveAudio(st, t)
    case Video => ObserveVideo(st, t)
    case ScriptData => st.(scriptTagCount := st.scriptTagCount + 1)
    case Unknown(_) => st
  }

  function Observe(st: FlvStats, t: FlvTag): FlvStats {
    var m := ObserveMedia(st, t);
    m.(tagCount := m.tagCount + 1, tagsSize := m.tagsSize + |t.data|,
       fileSize := m.fileSize + FootPrint(t), lastTimestamp := t.timestampMs)
  }

  function ObserveAll(st: FlvStats, tags: seq<FlvTag>): FlvStats {
    if tags == [] then st else Observe(ObserveAll(st, tags[..|tags| - 1]), tags[|tags| - 1])
  }

  class FlvAnalyzer {
    var stats: FlvStats
    var headerAnalyzed: bool

    constructor ()
      ensures stats == FreshStats(0) && !headerAnalyzed
    {
      stats, headerAnalyzed := FreshStats(0), false;
    }

    method Reset()
      modifies this
      ensures stats == FreshStats(0) && !headerAnalyzed
    {
      stats, headerAnalyzed := FreshStats(0), false;
    }

    method AnalyzeHeader(header: FlvHeader) returns (ok: bool)
      modifies this
      ensures ok <==> !old(headerAnalyzed) && header.version == 1
      ensures ok ==> headerAnalyzed && stats == old(stats).(fileSize := 13)
      ensures !ok ==> headerAnalyzed == old(headerAnalyzed) && stats == old(stats)
    {
      if headerAnalyzed || header.version != 1 {
        return false;
      }
      stats := stats.(fileSize := FLV_HEADER_SIZE + PREV_TAG_SIZE_FIELD_SIZE);
      headerAnalyzed := true;
      return true;
    }

    method AnalyzeAudioTag(t: FlvTag)
      modifies this
      ensures stats == ObserveAudio(old(stats), t) && headerAnalyzed == old(headerAnalyzed)
    {
      stats := stats.(hasAudio := true);
      if stats.firstAudioTimestamp.None? {
        stats := stats.(firstAudioTimestamp := Some(t.timestampMs));
      }
      stats := stats.(audioTagCount := stats.audioTagCount + 1);
      stats := stats.(audioTagsSize := stats.audioTagsSize + |t.data| + TAG_HEADER_SIZE + PREV_TAG_SIZE_FIELD_SIZE);
      stats := stats.(audioDataSize := stats.audioDataSize + |t.data|);
      stats := stats.(lastAudioTimestamp := t.timestampMs);
    }

    method AnalyzeVideoTag(t: FlvTag)
      modifies this
      ensures stats == ObserveVideo(old(stats), t) && headerAnalyzed == old(headerAnalyzed)
    {
      var v := if stats.video.None? then NoVideo else stats.video.value;
      if v.firstTimestamp.None? {
        v := v.(firstTimestamp := Some(t.timestampMs));
      }
      if IsVideoSequenceHeader(t) {
        // resolution and codec are read here; neither enters the model
      } else if IsKeyFrame(t) {
        var position := stats.fileSize;
        var since := if t.timestampMs >= v.lastKeyframeTimestamp then t.timestampMs - v.lastKeyframeTimestamp else 0;
        if v.lastKeyframeTimestamp == 0 || since >= MIN_INTERVAL_BETWEEN_KEYFRAMES_MS {
          v := v.(keyframes := v.keyframes + [Keyframe(t.timestampMs as real / 1000.0, position)]);
          v := v.(lastKeyframeTimestamp := t.timestampMs, lastKeyframePosition := position);
          if v.firstKeyframeTimestamp.None? {
            v := v.(firstKeyframeTimestamp := Some(t.timestampMs));
          }
        }
      }
      v := v.(tagCount := v.tagCount + 1);
      v := v.(tagsSize := v.tagsSize + |t.data| + TAG_HEADER_SIZE + PREV_TAG_SIZE_FIELD_SIZE);
      v := v.(dataSize := v.dataSize + |t.data|, lastTimestamp := t.timestampMs);
      stats := stats.(hasVideo := true, video := Some(v));
    }

    method AnalyzeTag(t: FlvTag) returns (ok: bool)
      modifies this
      ensures ok <==> t.tagType.Known()
      ensures headerAnalyzed == old(headerAnalyzed)
      ensures stats == if ok then Observe(old(stats), t) else old(stats)
    {
      match t.tagType {
        case Audio => AnalyzeAudioTag(t);
        case Video => AnalyzeVideoTag(t);
        case ScriptData => stats := stats.(scriptTagCount := stats.scriptTagCount + 1);
        case Unknown(_) => return false;
      }
      stats := stats.(tagCount := stats.tagCount + 1);
      stats := stats.(tagsSize := stats.tagsSize + |t.data|);
      stats := stats.(fileSize := stats.fileSize + |t.data| + TAG_HEADER_SIZE + PREV_TAG_SIZE_FIELD_SIZE);
      stats := stats.(lastTimestamp := t.timestampMs);
      return true;
    }
  }

  // ---------------------------------------------------------------- what the counters mean

  /** The offset of the `i`-th tag in a file whose tags start at `start`. */
  function Offset(tags: seq<FlvTag>, i: nat, start: nat): nat
    requires AllWritable(tags) && i <= |tags|
  {
    start + |WrittenTags(tags[..i])|
  }

  lemma {:induction false} OffsetNext(tags: seq<FlvTag>, start: nat)
    requires AllWritable(tags) && tags != []
    ensures var n := |tags| - 1;
            Offset(tags, |tags|, start) == Offset(tags[..n], n, start) + FootPrint(tags[n])
  {
    var n := |tags| - 1;
    WrittenTagsSnoc(tags[..n], tags[n]);
    assert tags[..n] + [tags[n]] == tags == tags[..|tags|];
    assert tags[..n][..n] == tags[..n];
  }

  /** The offsets are those at which the tags are laid out, and so those the parser reports. */
  lemma {:induction false} OffsetIsLaidPosition(tags: seq<FlvTag>, i: nat, start: nat)
    requires AllWritable(tags) && i < |tags|
    ensures |Laid(tags, start)| == |tags|
    ensures Laid(tags, start)[i] == Located(Canonical(tags[i]), Offset(tags, i, start))
    decreases tags
  {
    if |tags| > 1 {
      var next := start + tags[0].Size() + PREV_TAG_SIZE_FIELD_SIZE;
      OffsetIsLaidPosition(tags[1..], if i == 0 then 0 else i - 1, next);
      if i > 0 {
        assert tags[..i][1..] == tags[1..][..i - 1];
        assert tags[..i][0] == tags[0];
      }
    }
  }

  function VideoOf(st: FlvStats): VideoStats {
    if st.video.None? then NoVideo else st.video.value
  }

  /** The sums that must come out even, whatever tags were seen. */
  predicate Conserved(st: FlvStats, start: nat) {
    var v := VideoOf(st);
    && st.tagCount == st.audioTagCount + v.tagCount + st.scriptTagCount
    && st.fileSize == start + st.tagsSize + 15 * st.tagCount
    && st.audioTagsSize == st.audioDataSize + 15 * st.audioTagCount
    && v.tagsSize == v.dataSize + 15 * v.tagCount
    && st.audioDataSize + v.dataSize <= st.tagsSize
    && (st.video.Some? <==> st.hasVideo) && (st.hasVideo <==> v.tagCount > 0)
    && (st.hasAudio <==> st.audioTagCount > 0)
    && (st.firstAudioTimestamp.Some? <==> st.hasAudio) && (v.firstTimestamp.Some? <==> st.hasVideo)
  }

  lemma {:induction false} ObserveConserves(st: FlvStats, t: FlvTag, start: nat)
    requires Conserved(st, start) && t.tagType.Known()
    ensures Conserved(Observe(st, t), start)
    ensures Observe(st, t).fileSize == st.fileSize + FootPrint(t)
    ensures Observe(st, t).tagCount == st.tagCount + 1
  {
    hide AddsKeyframe;
  }

  /** Every counter is the sum it stands for; the file size is the start plus all bytes written. */
  lemma {:induction false} CountersConserve(tags: seq<FlvTag>, start: nat)
    requires AllWritable(tags)
    ensures var st := ObserveAll(FreshStats(start), tags);
            && Conserved(st, start)
            && st.tagCount == |tags|
            && st.fileSize == Offset(tags, |tags|, start)
  {
    if tags != [] {
      hide Observe, Conserved, FootPrint;
      var n := |tags| - 1;
      CountersConserve(tags[..n], start);
      ObserveConserves(ObserveAll(FreshStats(start), tags[..n]), tags[n], start);
      OffsetNext(tags, start);
    }
  }

  /** The tags of one kind, in order. */
  function OfKind(tags: seq<FlvTag>, kind: FlvTagType): seq<FlvTag> {
    if tags == [] then []
    else
      var n := |tags| - 1;
      OfKind(tags[..n], kind) + if tags[n].tagType == kind then [tags[n]] else []
  }

  function PayloadSum(tags: seq<FlvTag>): nat {
    if tags == [] then 0 else PayloadSum(tags[..|tags| - 1]) + |tags[|tags| - 1].data|
  }

  /** Every counter is the number, or the payload bytes, of the tags of its kind; sizes in the file add 15 a tag. */
  ghost predicate Counts(st: FlvStats, tags: seq<FlvTag>) {
    var audio, video := OfKind(tags, Audio), OfKind(tags, Video);
    && st.audioTagCount == |audio| && st.audioDataSize == PayloadSum(audio)
    && st.audioTagsSize == PayloadSum(audio) + 15 * |audio|
    && VideoOf(st).tagCount == |video| && VideoOf(st).dataSize == PayloadSum(video)
    && VideoOf(st).tagsSize == PayloadSum(video) + 15 * |video|
    && st.scriptTagCount == |OfKind(tags, ScriptData)|
    && st.tagCount == |tags| && st.tagsSize == PayloadSum(tags)
    && (st.hasAudio <==> audio != []) && (st.hasVideo <==> video != []) && (st.video.Some? <==> video != [])
    && st.lastTimestamp == if tags == [] then 0 else tags[|tags| - 1].timestampMs
  }

  lemma {:induction false} CountersAreSums(tags: seq<FlvTag>, start: nat)
    requires AllWritable(tags)
    ensures Counts(ObserveAll(FreshStats(start), tags), tags)
  {
    if tags != [] {
      var n := |tags| - 1;
      CountersAreSums(tags[..n], start);
      hide Counts, Observe, OfKind;
      ObserveCounts(ObserveAll(FreshStats(start), tags[..n]), tags[..n], tags[n]);
      assert tags == tags[..n] + [tags[n]];
    }
  }

  lemma {:induction false} ObserveCounts(st: FlvStats, tags: seq<FlvTag>, t: FlvTag)
    requires Counts(st, tags) && t.tagType.Known()
    ensures Counts(Observe(st, t), tags + [t])
  {
    hide OfKind, PayloadSum, AddsKeyframe;
    OfKindSnoc(tags, t, Audio);
    OfKindSnoc(tags, t, Video);
    OfKindSnoc(tags, t, ScriptData);
    PayloadSumSnoc(OfKind(tags, Audio), t);
    PayloadSumSnoc(OfKind(tags, Video), t);
    PayloadSumSnoc(tags, t);
  }

  lemma {:induction false} OfKindSnoc(tags: seq<FlvTag>, t: FlvTag, kind: FlvTagType)
    ensures OfKind(tags + [t], kind) == if t.tagType == kind then OfKind(tags, kind) + [t] else OfKind(tags, kind)
  {
    assert (tags + [t])[..|tags|] == tags;
  }

  lemma {:induction false} PayloadSumSnoc(tags: seq<FlvTag>, t: FlvTag)
    ensures PayloadSum(tags + [t]) == PayloadSum(tags) + |t.data|
  {
    assert (tags + [t])[..|tags|] == tags;
  }

  // ---------------------------------------------------------------- the keyframe index

  /** The keyframes that enter the index, as positions in the tag list. */
  function Chosen(tags: seq<FlvTag>): seq<nat> {
    if tags == [] then []
    else
      var n := |tags| - 1;
      var c := Chosen(tags[..n]);
      if IsIndexable(tags[n]) && Due(tags, c, tags[n]) then c + [n] else c
  }

  /** The timestamp of the last entry, zero when there is none. */
  function LastChosen(tags: seq<FlvTag>, c: seq<nat>): u32 {
    if c == [] || c[|c| - 1] >= |tags| then 0 else tags[c[|c| - 1]].timestampMs
  }

  predicate Due(tags: seq<FlvTag>, c: seq<nat>, t: FlvTag) {
    LastChosen(tags, c) == 0 || t.timestampMs >= LastChosen(tags, c) + MIN_INTERVAL_BETWEEN_KEYFRAMES_MS
  }

  lemma {:induction false} ChosenInRange(tags: seq<FlvTag>)
    ensures forall j :: 0 <= j < |Chosen(tags)| ==> Chosen(tags)[j] < |tags| && IsIndexable(tags[Chosen(tags)[j]])
    ensures forall i, j :: 0 <= i < j < |Chosen(tags)| ==> Chosen(tags)[i] < Chosen(tags)[j]
  {
    if tags != [] {
      ChosenInRange(tags[..|tags| - 1]);
    }
  }

  /** Consecutive entries are at least the minimum interval apart, unless the earlier one is at time 0. */
  lemma {:induction false} ChosenSpacing(tags: seq<FlvTag>, j: nat)
    requires j + 1 < |Chosen(tags)|
    ensures Chosen(tags)[j] < |tags| && Chosen(tags)[j + 1] < |tags|
    ensures var a, b := tags[Chosen(tags)[j]], tags[Chosen(tags)[j + 1]];
            a.timestampMs == 0 || b.timestampMs >= a.timestampMs + 1900
  {
    ChosenInRange(tags);
    var n := |tags| - 1;
    ChosenInRange(tags[..n]);
    if j + 1 < |Chosen(tags[..n])| {
      ChosenSpacing(tags[..n], j);
    }
  }

  /** Where the indexable tags are. */
  function Indexable(tags: seq<FlvTag>): seq<nat> {
    if tags == [] then []
    else
      var n := |tags| - 1;
      Indexable(tags[..n]) + if IsIndexable(tags[n]) then [n] else []
  }

  lemma {:induction false} IndexableInRange(tags: seq<FlvTag>)
    ensures forall j :: 0 <= j < |Indexable(tags)| ==> Indexable(tags)[j] < |tags|
  {
    if tags != [] {
      IndexableInRange(tags[..|tags| - 1]);
    }
  }

  /** What the minimum interval promises of the index. */
  predicate Spaced(tags: seq<FlvTag>) {
    forall j :: 0 <= j && j + 1 < |Chosen(tags)| ==> Apart(tags, Chosen(tags)[j], Chosen(tags)[j + 1])
  }

  predicate Apart(tags: seq<FlvTag>, a: nat, b: nat) {
    a < |tags| && b < |tags| && tags[b].timestampMs >= tags[a].timestampMs + 1900
  }

  /** The first indexable tag enters the index, and after one at time zero so does the second. */
  lemma {:induction false} ChosenHeads(tags: seq<FlvTag>)
    ensures var x, c := Indexable(tags), Chosen(tags);
            && |c| <= |x| && (x != [] ==> c != [] && c[0] == x[0] < |tags|)
            && (|x| >= 2 && tags[x[0]].timestampMs == 0 ==> |c| >= 2 && c[1] == x[1] < |tags|)
  {
    hide IsIndexable, Due;
    if tags != [] {
      var prev := tags[..|tags| - 1];
      ChosenHeads(prev);
      IndexableInRange(prev);
      ChosenInRange(prev);
      DueAtFirst(tags, Chosen(prev), tags[|tags| - 1]);
    }
  }

  lemma {:induction false} DueAtFirst(tags: seq<FlvTag>, c: seq<nat>, t: FlvTag)
    ensures c == [] ==> Due(tags, c, t)
    ensures |c| == 1 && c[0] < |tags| && tags[c[0]].timestampMs == 0 ==> Due(tags, c, t)
  {}

  /** Behind an entry at a nonzero time there are only such entries. */
  lemma {:induction false} StaysPositive(tags: seq<FlvTag>, k: nat, j: nat)
    requires k <= j < |Chosen(tags)| && Chosen(tags)[k] < |tags| && tags[Chosen(tags)[k]].timestampMs > 0
    ensures Chosen(tags)[j] < |tags| && tags[Chosen(tags)[j]].timestampMs > 0
    decreases j
  {
    hide Chosen;
    if k < j {
      StaysPositive(tags, k, j - 1);
      ChosenSpacing(tags, j - 1);
    }
  }

  /** What the tags must be for that promise to hold. */
  predicate StartsApart(tags: seq<FlvTag>) {
    IndexableInRange(tags);
    var x := Indexable(tags);
    |x| < 2 || tags[x[0]].timestampMs > 0 || tags[x[1]].timestampMs >= 1900
  }

  /**
   Neighbours in the index are the minimum interval apart if and only if the first two indexable
   tags do not begin with one at time zero and another one less than the interval after it.
   */
  lemma {:induction false} SpacedExactlyWhen(tags: seq<FlvTag>)
    ensures Spaced(tags) <==> StartsApart(tags)
  {
    hide Chosen, Indexable;
    var x, c := Indexable(tags), Chosen(tags);
    IndexableInRange(tags);
    ChosenHeads(tags);
    if StartsApart(tags) {
      forall j | 0 <= j && j + 1 < |c| ensures Apart(tags, c[j], c[j + 1]) {
        ChosenSpacing(tags, j);
        if tags[x[0]].timestampMs > 0 {
          StaysPositive(tags, 0, j);
        } else if j > 0 {
          StaysPositive(tags, 1, j);
        }
      }
    }
    if Spaced(tags) && |c| >= 2 {
      assert Apart(tags, c[0], c[0 + 1]);
    }
  }

  /** A short AVC video tag: a keyframe when its first byte is 0x17, another frame when it is 0x27. */
  function VideoTag(time: u32, head: byte): FlvTag { FlvTag(time, 0, Video, false, [head, 1]) }

  /** Two keyframes at times zero and one both enter the index. */
  lemma {:induction false} EarlyKeyframesCrowd()
    ensures var tags := [VideoTag(0, 0x17), VideoTag(1, 0x17)]; Chosen(tags) == [0, 1] && !Spaced(tags)
  {
    var a, b := VideoTag(0, 0x17), VideoTag(1, 0x17);
    var tags := [a, b];
    assert tags[..1] == [a] && [a][..0] == [];
    assert IsIndexable(a) && IsIndexable(b);
    assert Chosen([a]) == [0];
    assert Chosen(tags) == [0, 1];
    assert !Apart(tags, Chosen(tags)[0], Chosen(tags)[0 + 1]);
  }

  /** The keyframe at `i` falls between entries `j` and `j + 1`, too soon after entry `j`. */
  predicate TooSoon(tags: seq<FlvTag>, c: seq<nat>, i: nat, j: nat) {
    && i < |tags| && j < |c| && c[j] < i
    && (j + 1 < |c| ==> i < c[j + 1])
    && 0 < tags[c[j]].timestampMs
    && tags[i].timestampMs < tags[c[j]].timestampMs + 1900
  }

  /** A keyframe is left out only when the last entry before it is at a nonzero time less than the interval away. */
  lemma {:induction false} ChosenComplete(tags: seq<FlvTag>, i: nat) returns (j: nat)
    requires i < |tags| && IsKeyFrame(tags[i]) && !IsVideoSequenceHeader(tags[i]) && i !in Chosen(tags)
    ensures TooSoon(tags, Chosen(tags), i, j)
  {
    assert IsIndexable(tags[i]);
    hide IsIndexable, IsKeyFrame, IsVideoSequenceHeader;
    var n := |tags| - 1;
    var c, d := Chosen(tags[..n]), Chosen(tags);
    ChosenInRange(tags);
    if i < n {
      assert i !in c by { assert forall k :: 0 <= k < |c| ==> c[k] == d[k]; }
      j := ChosenComplete(tags[..n], i);
    } else {
      j := |d| - 1;
      assert !Due(tags, c, tags[n]);
    }
  }

  function Entry(tags: seq<FlvTag>, i: nat, start: nat): Keyframe
    requires AllWritable(tags) && i < |tags|
  {
    Keyframe(tags[i].timestampMs as real / 1000.0, Offset(tags, i, start))
  }

  ghost predicate IndexMatches(tags: seq<FlvTag>, start: nat, v: VideoStats)
    requires AllWritable(tags)
  {
    && v.lastKeyframeTimestamp == LastChosen(tags, Chosen(tags))
    && EntriesMatch(tags, start, Chosen(tags), v.keyframes)
  }

  ghost predicate EntriesMatch(tags: seq<FlvTag>, start: nat, c: seq<nat>, entries: seq<Keyframe>)
    requires AllWritable(tags)
  {
    && |entries| == |c|
    && forall j :: 0 <= j < |c| ==> c[j] < |tags| && entries[j] == Entry(tags, c[j], start)
  }

  lemma {:induction false} EntriesStay(tags: seq<FlvTag>, start: nat, c: seq<nat>, entries: seq<Keyframe>)
    requires AllWritable(tags) && tags != []
    requires EntriesMatch(tags[..|tags| - 1], start, c, entries)
    ensures EntriesMatch(tags, start, c, entries)
    ensures LastChosen(tags, c) == LastChosen(tags[..|tags| - 1], c)
  {
    hide WrittenTags;
    var prev := tags[..|tags| - 1];
    forall j | 0 <= j < |c| ensures c[j] < |tags| && Entry(tags, c[j], start) == Entry(prev, c[j], start) {
      assert tags[..c[j]] == prev[..c[j]];
    }
  }

  lemma {:induction false} IndexGrows(tags: seq<FlvTag>, start: nat, v: VideoStats, fileSize: nat)
    requires AllWritable(tags) && tags != []
    requires IndexMatches(tags[..|tags| - 1], start, v)
    requires fileSize == Offset(tags[..|tags| - 1], |tags| - 1, start)
    ensures IndexMatches(tags, start, ObserveKeyframe(v, tags[|tags| - 1], fileSize))
  {
    var n := |tags| - 1;
    var c := Chosen(tags[..n]);
    assert Entry(tags, n, start) == Keyframe(tags[n].timestampMs as real / 1000.0, fileSize) by {
      assert tags[..n][..n] == tags[..n];
    }
    hide WrittenTags, IsIndexable, Entry, EntriesMatch;
    EntriesStay(tags, start, c, v.keyframes);
    EntriesSnoc(tags, start, c, v.keyframes, n);
  }

  lemma {:induction false} EntriesSnoc(tags: seq<FlvTag>, start: nat, c: seq<nat>, entries: seq<Keyframe>, i: nat)
    requires AllWritable(tags) && EntriesMatch(tags, start, c, entries) && i < |tags|
    ensures EntriesMatch(tags, start, c + [i], entries + [Entry(tags, i, start)])
  {}

  /** The analyzer's index is exactly the chosen keyframes with their true file offsets. */
  lemma {:induction false} IndexIsExact(tags: seq<FlvTag>, start: nat)
    requires AllWritable(tags)
    ensures IndexMatches(tags, start, VideoOf(ObserveAll(FreshStats(start), tags)))
  {
    if tags != [] {
      var n := |tags| - 1;
      var st := ObserveAll(FreshStats(start), tags[..n]);
      IndexIsExact(tags[..n], start);
      CountersConserve(tags[..n], start);
      IndexGrows(tags, start, VideoOf(st), st.fileSize);
      ObserveIndex(st, tags[n]);
      SameIndex(tags, start, ObserveKeyframe(VideoOf(st), tags[n], st.fileSize), VideoOf(Observe(st, tags[n])));
    }
  }

  /** The last keyframe on record is the last entry of the index. */
  lemma {:induction false} LastKeyframeIsLastEntry(tags: seq<FlvTag>, start: nat)
    requires AllWritable(tags)
    ensures var v := VideoOf(ObserveAll(FreshStats(start), tags));
            v.lastKeyframePosition == if v.keyframes == [] then 0 else v.keyframes[|v.keyframes| - 1].filePosition
  {
    hide AddsKeyframe, FootPrint;
    if tags != [] {
      LastKeyframeIsLastEntry(tags[..|tags| - 1], start);
    }
  }

  lemma {:induction false} ObserveIndex(st: FlvStats, t: FlvTag)
    requires t.tagType.Known()
    ensures var v, w := ObserveKeyframe(VideoOf(st), t, st.fileSize), VideoOf(Observe(st, t));
            v.lastKeyframeTimestamp == w.lastKeyframeTimestamp && v.keyframes == w.keyframes
  {}

  lemma {:induction false} SameIndex(tags: seq<FlvTag>, start: nat, v: VideoStats, w: VideoStats)
    requires AllWritable(tags) && IndexMatches(tags, start, v)
    requires v.lastKeyframeTimestamp == w.lastKeyframeTimestamp && v.keyframes == w.keyframes
    ensures IndexMatches(tags, start, w)
  {}

  // ---------------------------------------------------------------- duration

  function Min(a: u32, b: u32): u32 { if a <= b then a else b }
  function Max(a: u32, b: u32): u32 { if a >= b then a else b }

  /** The earlier of the first video and first audio timestamps, zero when there is neither. */
  function FirstTimestamp(st: FlvStats): u32 {
    match (VideoOf(st).firstTimestamp, st.firstAudioTimestamp)
    case (Some(v), Some(a)) => Min(v, a)
    case (Some(v), None) => v
    case (None, Some(a)) => a
    case (None, None) => 0
  }

  /** The later of the last video and last audio timestamps; the video statistics are unwrapped. */
  function LastTimestamp(st: FlvStats): u32
    requires st.hasVideo ==> st.video.Some?
  {
    if st.hasVideo && st.hasAudio then Max(st.video.value.lastTimestamp, st.lastAudioTimestamp)
    else if st.hasVideo then st.video.value.lastTimestamp
    else if st.hasAudio then st.lastAudioTimestamp
    else st.lastTimestamp
  }

  function CalculateDuration(st: FlvStats): nat
    requires st.hasVideo ==> st.video.Some?
  {
    Elapsed(st) / 1000
  }

  /** The duration in milliseconds; a negative one counts as none. */
  function Elapsed(st: FlvStats): nat
    requires st.hasVideo ==> st.video.Some?
  {
    var first, last := FirstTimestamp(st), LastTimestamp(st);
    if last >= first then last - first else 0
  }

  /** The timestamps of the tags of one kind. */
  function TimesOf(tags: seq<FlvTag>, kind: FlvTagType): seq<u32> {
    if tags == [] then []
    else
      var n := |tags| - 1;
      TimesOf(tags[..n], kind) + if tags[n].tagType == kind then [tags[n].timestampMs] else []
  }

  predicate Sorted(times: seq<u32>) {
    forall i, j :: 0 <= i < j < |times| ==> times[i] <= times[j]
  }

  function First(times: seq<u32>): Option<u32> { if times == [] then None else Some(times[0]) }
  function Last(times: seq<u32>): u32 { if times == [] then 0 else times[|times| - 1] }

  /** What the statistics remember of the times of each kind. */
  ghost predicate Remembers(st: FlvStats, video: seq<u32>, audio: seq<u32>) {
    && (st.hasVideo <==> video != []) && (st.hasVideo <==> st.video.Some?) && (st.hasAudio <==> audio != [])
    && VideoOf(st).firstTimestamp == First(video) && VideoOf(st).lastTimestamp == Last(video)
    && st.firstAudioTimestamp == First(audio) && st.lastAudioTimestamp == Last(audio)
  }

  lemma {:induction false} ObserveRemembers(st: FlvStats, t: FlvTag, video: seq<u32>, audio: seq<u32>)
    requires Remembers(st, video, audio) && t.tagType.Known()
    ensures Remembers(Observe(st, t), video + if t.tagType == Video then [t.timestampMs] else [],
                      audio + if t.tagType == Audio then [t.timestampMs] else [])
  {
    hide AddsKeyframe, FootPrint;
    assert video + [] == video && audio + [] == audio;
  }

  lemma {:induction false} StatsRemember(tags: seq<FlvTag>, start: nat)
    requires AllWritable(tags)
    ensures Remembers(ObserveAll(FreshStats(start), tags), TimesOf(tags, Video), TimesOf(tags, Audio))
  {
    if tags != [] {
      var n := |tags| - 1;
      StatsRemember(tags[..n], start);
      hide Remembers, Observe;
      ObserveRemembers(ObserveAll(FreshStats(start), tags[..n]), tags[n],
                       TimesOf(tags[..n], Video), TimesOf(tags[..n], Audio));
    }
  }

  predicate IsMedia(t: FlvTag) { t.tagType == Audio || t.tagType == Video }

  /** The times of all media tags lie between two of them. */
  ghost predicate Span(tags: seq<FlvTag>, lo: u32, hi: u32) {
    && (forall i :: 0 <= i < |tags| && IsMedia(tags[i]) ==> lo <= tags[i].timestampMs <= hi)
    && (exists i :: 0 <= i < |tags| && IsMedia(tags[i]) && tags[i].timestampMs == lo)
    && (exists i :: 0 <= i < |tags| && IsMedia(tags[i]) && tags[i].timestampMs == hi)
  }

  lemma {:induction false} TimeIsListed(tags: seq<FlvTag>, i: nat)
    requires i < |tags|
    ensures tags[i].timestampMs in TimesOf(tags, tags[i].tagType)
  {
    if i < |tags| - 1 {
      TimeIsListed(tags[..|tags| - 1], i);
    }
  }

  lemma {:induction false} ListedIsTime(tags: seq<FlvTag>, kind: FlvTagType, j: nat) returns (i: nat)
    requires j < |TimesOf(tags, kind)|
    ensures i < |tags| && tags[i].tagType == kind && tags[i].timestampMs == TimesOf(tags, kind)[j]
  {
    var n := |tags| - 1;
    if j < |TimesOf(tags[..n], kind)| {
      i := ListedIsTime(tags[..n], kind, j);
    } else {
      i := n;
    }
  }

  /** The earliest time is that of the first tag of a kind, and the latest that of the last tag of a kind. */
  predicate StartsAndEnds(v: seq<u32>, a: seq<u32>, lo: u32, hi: u32) {
    && (First(v) == Some(lo) || First(a) == Some(lo))
    && ((v != [] && Last(v) == hi) || (a != [] && Last(a) == hi))
  }

  /**
   The elapsed time is from the earliest media tag to the latest if and only if some kind starts with the
   earliest and some kind ends with the latest.
   */
  lemma {:induction false} ElapsedIsTheSpanExactlyWhen(tags: seq<FlvTag>, start: nat, lo: u32, hi: u32)
    requires AllWritable(tags) && Span(tags, lo, hi)
    ensures var st := ObserveAll(FreshStats(start), tags);
            && (st.hasVideo ==> st.video.Some?)
            && (Elapsed(st) == hi - lo <==> StartsAndEnds(TimesOf(tags, Video), TimesOf(tags, Audio), lo, hi))
  {
    hide *;
    StatsRemember(tags, start);
    var v, a := TimesOf(tags, Video), TimesOf(tags, Audio);
    SpanOfKinds(tags, v, a, lo, hi);
    DurationOf(ObserveAll(FreshStats(start), tags), v, a, lo, hi);
  }

  /** Two video tags five seconds apart, the later one first: no time has elapsed. */
  lemma {:induction false} BackwardTimesCollapse()
    ensures var tags := [VideoTag(5000, 0x17), VideoTag(0, 0x27)];
            var st := ObserveAll(FreshStats(13), tags);
            Span(tags, 0, 5000) && st.hasVideo && st.video.Some? && Elapsed(st) == 0
  {
    var a, b := VideoTag(5000, 0x17), VideoTag(0, 0x27);
    var tags := [a, b];
    assert tags[..1] == [a] && [a][..0] == [];
    assert IsMedia(tags[0]) && IsMedia(tags[1]);
    assert tags[1].timestampMs == 0 && tags[0].timestampMs == 5000;
    assert ObserveAll(FreshStats(13), [a]) == Observe(FreshStats(13), a);
    assert ObserveAll(FreshStats(13), tags) == Observe(Observe(FreshStats(13), a), b);
    hide IsIndexable, ObserveAll;
  }

  /**
   With the times of each kind in order, however the kinds are interleaved, the duration is from the
   earliest media tag to the latest, in whole seconds.
   */
  lemma {:induction false} DurationIsTheSpan(tags: seq<FlvTag>, start: nat, lo: u32, hi: u32)
    requires AllWritable(tags) && Sorted(TimesOf(tags, Video)) && Sorted(TimesOf(tags, Audio)) && Span(tags, lo, hi)
    ensures var st := ObserveAll(FreshStats(start), tags);
            && (st.hasVideo ==> st.video.Some?)
            && CalculateDuration(st) == (hi - lo) / 1000
  {
    hide *;
    var v, a := TimesOf(tags, Video), TimesOf(tags, Audio);
    SpanOfKinds(tags, v, a, lo, hi);
    EndsOfTwo(v, a, lo, hi);
    ElapsedIsTheSpanExactlyWhen(tags, start, lo, hi);
    DurationInSeconds(ObserveAll(FreshStats(start), tags));
  }

  lemma {:induction false} DurationInSeconds(st: FlvStats)
    requires st.hasVideo ==> st.video.Some?
    ensures CalculateDuration(st) == Elapsed(st) / 1000
  {}

  lemma {:induction false} DurationOf(st: FlvStats, v: seq<u32>, a: seq<u32>, lo: u32, hi: u32)
    requires Remembers(st, v, a) && InSpan(v, a, lo, hi)
    ensures (st.hasVideo ==> st.video.Some?) && (Elapsed(st) == hi - lo <==> StartsAndEnds(v, a, lo, hi))
  {}

  /** Two lists of times, not both empty, between two times. */
  predicate InSpan(v: seq<u32>, a: seq<u32>, lo: u32, hi: u32) {
    && (v != [] || a != []) && lo <= hi
    && (v != [] ==> lo <= v[0] <= hi && lo <= Last(v) <= hi) && (a != [] ==> lo <= a[0] <= hi && lo <= Last(a) <= hi)
  }

  lemma {:induction false} SpanOfKinds(tags: seq<FlvTag>, v: seq<u32>, a: seq<u32>, lo: u32, hi: u32)
    requires v == TimesOf(tags, Video) && a == TimesOf(tags, Audio) && Span(tags, lo, hi)
    ensures InSpan(v, a, lo, hi) && (lo in v || lo in a) && (hi in v || hi in a)
  {
    var i, j := SpanEnds(tags, lo, hi);
    hide TimesOf, Span;
    TimeIsListed(tags, i);
    TimeIsListed(tags, j);
    if v != [] {
      KindInSpan(tags, Video, lo, hi);
    }
    if a != [] {
      KindInSpan(tags, Audio, lo, hi);
    }
  }

  lemma {:induction false} SpanEnds(tags: seq<FlvTag>, lo: u32, hi: u32) returns (i: nat, j: nat)
    requires Span(tags, lo, hi)
    ensures i < |tags| && IsMedia(tags[i]) && tags[i].timestampMs == lo
    ensures j < |tags| && IsMedia(tags[j]) && tags[j].timestampMs == hi
  {
    i :| 0 <= i < |tags| && IsMedia(tags[i]) && tags[i].timestampMs == lo;
    j :| 0 <= j < |tags| && IsMedia(tags[j]) && tags[j].timestampMs == hi;
  }

  /** In sorted lists the earliest and the latest time stand at the ends. */
  lemma {:induction false} EndsOfTwo(v: seq<u32>, a: seq<u32>, lo: u32, hi: u32)
    requires Sorted(v) && Sorted(a) && InSpan(v, a, lo, hi) && (lo in v || lo in a) && (hi in v || hi in a)
    ensures StartsAndEnds(v, a, lo, hi)
  {
    if lo in v {
      SortedEnds(v, lo);
    } else {
      SortedEnds(a, lo);
    }
    if hi in v {
      SortedEnds(v, hi);
    } else {
      SortedEnds(a, hi);
    }
    hide Sorted;
  }

  lemma {:induction false} SortedEnds(times: seq<u32>, t: u32)
    requires Sorted(times) && t in times
    ensures times[0] <= t <= Last(times)
  {}

  lemma {:induction false} KindInSpan(tags: seq<FlvTag>, kind: FlvTagType, lo: u32, hi: u32)
    requires Span(tags, lo, hi) && (kind == Video || kind == Audio) && TimesOf(tags, kind) != []
    ensures lo <= TimesOf(tags, kind)[0] <= hi && lo <= Last(TimesOf(tags, kind)) <= hi
  {
    hide TimesOf;
    var i := ListedIsTime(tags, kind, 0);
    var j := ListedIsTime(tags, kind, |TimesOf(tags, kind)| - 1);
  }

  // ---------------------------------------------------------------- where the duration starts

  /** The start as documented: from the first keyframe instead of the first video tag. */
  function DocumentedStart(st: FlvStats): u32 {
    match (VideoOf(st).firstKeyframeTimestamp, st.firstAudioTimestamp)
    case (Some(k), Some(a)) => Min(k, a)
    case (Some(k), None) => k
    case (None, Some(a)) => a
    case (None, None) => 0
  }

  /** The time of the first indexable tag. */
  function FirstKeyframe(tags: seq<FlvTag>): Option<u32> {
    IndexableInRange(tags);
    var x := Indexable(tags);
    if x == [] then None else Some(tags[x[0]].timestampMs)
  }

  lemma {:induction false} StatsRememberKeyframe(tags: seq<FlvTag>, start: nat)
    requires AllWritable(tags)
    ensures var v := VideoOf(ObserveAll(FreshStats(start), tags));
            && v.firstKeyframeTimestamp == FirstKeyframe(tags)
            && (FirstKeyframe(tags).None? ==> v.lastKeyframeTimestamp == 0)
  {
    if tags != [] {
      var n := |tags| - 1;
      StatsRememberKeyframe(tags[..n], start);
      FirstKeyframeGrows(tags);
      ObserveFirstKeyframe(ObserveAll(FreshStats(start), tags[..n]), tags[n]);
      hide Observe, IsIndexable, FirstKeyframe, VideoOf;
    }
  }

  lemma {:induction false} FirstKeyframeGrows(tags: seq<FlvTag>)
    requires tags != []
    ensures var prev, t := FirstKeyframe(tags[..|tags| - 1]), tags[|tags| - 1];
            FirstKeyframe(tags) == if prev.Some? then prev else if IsIndexable(t) then Some(t.timestampMs) else None
  {
    hide IsIndexable;
    IndexableInRange(tags[..|tags| - 1]);
  }

  lemma {:induction false} ObserveFirstKeyframe(st: FlvStats, t: FlvTag)
    requires VideoOf(st).firstKeyframeTimestamp.None? ==> VideoOf(st).lastKeyframeTimestamp == 0
    ensures var v, w := VideoOf(st), VideoOf(Observe(st, t));
            && w.firstKeyframeTimestamp == (if v.firstKeyframeTimestamp.Some? then v.firstKeyframeTimestamp
                                            else if IsIndexable(t) then Some(t.timestampMs) else None)
            && (w.firstKeyframeTimestamp.None? ==> w.lastKeyframeTimestamp == 0)
  {
    IndexableIsVideo(t);
    hide IsIndexable, FootPrint;
  }

  lemma {:induction false} IndexableIsVideo(t: FlvTag)
    ensures IsIndexable(t) ==> t.tagType == Video
  {}

  /** Two starting times are the same with an audio start beside them. */
  predicate SameStart(v: Option<u32>, k: Option<u32>, a: Option<u32>) {
    || v == k
    || (a.Some? && (v.Some? ==> a.value <= v.value) && (k.Some? ==> a.value <= k.value))
    || (a.None? && k.None? && v == Some(0))
  }

  /**
   The start is the documented one if and only if the first video tag is an indexable keyframe or at the
   time of the first one, or audio starts before both, or only frames without a keyframe start at zero.
   */
  lemma {:induction false} StartIsDocumentedExactlyWhen(tags: seq<FlvTag>, start: nat)
    requires AllWritable(tags)
    ensures var st := ObserveAll(FreshStats(start), tags);
            FirstTimestamp(st) == DocumentedStart(st)
            <==> SameStart(First(TimesOf(tags, Video)), FirstKeyframe(tags), First(TimesOf(tags, Audio)))
  {
    StatsRemember(tags, start);
    StatsRememberKeyframe(tags, start);
    KeyframeIsVideo(tags);
    hide ObserveAll, TimesOf, FirstKeyframe;
  }

  lemma {:induction false} KeyframeIsVideo(tags: seq<FlvTag>)
    ensures FirstKeyframe(tags).Some? ==> TimesOf(tags, Video) != []
  {
    hide IsIndexable;
    if tags != [] {
      KeyframeIsVideo(tags[..|tags| - 1]);
      IndexableInRange(tags[..|tags| - 1]);
      IndexableIsVideo(tags[|tags| - 1]);
    }
  }

  /** A recording that joins a stream between keyframes: five seconds, of which the documented rule sees none. */
  lemma {:induction false} LateKeyframeCounts()
    ensures var st := ObserveAll(FreshStats(13), [VideoTag(0, 0x27), VideoTag(5000, 0x17)]);
            && st.hasVideo && st.video.Some?
            && CalculateDuration(st) == 5 && DocumentedStart(st) == LastTimestamp(st)
  {
    var a, b := VideoTag(0, 0x27), VideoTag(5000, 0x17);
    var tags := [a, b];
    assert tags[..1] == [a] && [a][..0] == [];
    assert !IsIndexable(a) && IsIndexable(b);
    assert ObserveAll(FreshStats(13), [a]) == Observe(FreshStats(13), a);
    assert ObserveAll(FreshStats(13), tags) == Observe(Observe(FreshStats(13), a), b);
    hide IsIndexable, ObserveAll;
  }
}
