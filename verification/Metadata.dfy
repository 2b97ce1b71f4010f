/** Building an onMetaData payload of an exact size, so that it can be rewritten in place later. */
module Metadata {
  import opened Bytes
  import opened FlvFraming
  import opened FlvWriter
  import opened Analyzer

  const MAX_FLV_TAG_PAYLOAD_SIZE: nat := 0xFF_FFFF

  /**
   The AMF0 rendering that the builder drives: `render` gives the payload with the keyframe
   index cut to a number of entries, `pad` the same with a number of filler bytes asked for;
   `None` is an encoding error. `requested` is how many keyframes there are, `spacer` the room
   left for them in the original script tag, if it had one.
   */
  datatype Renderer = Renderer(
    requested: nat, spacer: Option<nat>, render: nat -> Option<bytes>, pad: (nat, nat) -> Option<bytes>)
  {
    /** No more keyframes than there are, nor than the spacer has room for: two numbers each. */
    predicate Allowed(count: nat) {
      count <= requested && (spacer.Some? ==> 2 * count <= spacer.value)
    }

    function MaxKeyframes(): (max: nat)
      ensures forall c: nat :: Allowed(c) <==> c <= max
    {
      if spacer.Some? && spacer.value / 2 < requested then spacer.value / 2 else requested
    }

    /** The payload with a number of keyframes, padded if it is shorter than the target. */
    function Payload(count: nat, target: nat): Option<bytes>
      requires Fits(count, target)
    {
      var b := render(count).value;
      if |b| == target then Some(b) else pad(count, target - |b|)
    }

    /** These bytes are the payload of the target size with the most keyframes that fit. */
    ghost predicate Fills(count: nat, target: nat, p: bytes) {
      && Allowed(count) && Fits(count, target) && Payload(count, target) == Some(p) && |p| == target
      && (Monotone() ==> forall c: nat :: Allowed(c) && Fits(c, target) ==> c <= count)
    }

    predicate Fits(count: nat, target: nat) {
      render(count).Some? && |render(count).value| <= target
    }

    /** More keyframes never make the payload smaller. */
    ghost predicate Monotone() {
      && (forall c: nat :: Allowed(c) ==> render(c).Some?)
      && (forall c: nat, d: nat :: c <= d && Allowed(c) && Allowed(d) ==> |render(c).value| <= |render(d).value|)
    }

    /** Asked for the missing bytes, padding supplies exactly those. */
    ghost predicate Pads(target: nat) {
      forall c: nat :: Allowed(c) && Fits(c, target) && |render(c).value| < target ==>
        var p := pad(c, target - |render(c).value|); p.Some? && |p.value| == target
    }
  }

  /** Both, whatever size is asked for: what the source relies on. */
  ghost predicate Dependable(r: Renderer) {
    r.Monotone() && forall target: nat :: r.Pads(target)
  }

  datatype FixedSize =
    | Built(bytes: bytes, keyframesWritten: nat, truncated: bool)
    | TooLarge
    | Failed

  /**
   The payload has exactly the target size or there is none. The binary search finds the
   largest keyframe count that fits when more keyframes never render smaller.
   */
  method BuildFixedSize(r: Renderer, target: nat) returns (res: FixedSize)
    ensures res.Built? ==>
              && r.Fills(res.keyframesWritten, target, res.bytes)
              && target <= MAX_FLV_TAG_PAYLOAD_SIZE
              && (res.truncated <==> res.keyframesWritten < r.requested)
    ensures target > MAX_FLV_TAG_PAYLOAD_SIZE ==> res.Failed?
    ensures res.TooLarge? ==> target <= MAX_FLV_TAG_PAYLOAD_SIZE && !r.Fits(0, target)
    ensures r.Monotone() && target <= MAX_FLV_TAG_PAYLOAD_SIZE && !r.Fits(0, target) ==> res.TooLarge?
    ensures r.Monotone() && r.Pads(target) ==>
              && (res.Built? <==> target <= MAX_FLV_TAG_PAYLOAD_SIZE && r.Fits(0, target))
              && (res.TooLarge? <==> target <= MAX_FLV_TAG_PAYLOAD_SIZE && !r.Fits(0, target))
  {
    if target > MAX_FLV_TAG_PAYLOAD_SIZE {
      return Failed;
    }
    var best: Option<nat> := None;
    var low, high := 0, r.MaxKeyframes();
    var searching := true;
    while searching && low <= high
      invariant 0 <= low <= high + 1 <= r.MaxKeyframes() + 1
      invariant best.None? ==> low == 0
      invariant best.Some? ==> low == best.value + 1 && r.Fits(best.value, target) && best.value <= r.MaxKeyframes()
      invariant high < r.MaxKeyframes() ==> !r.Fits(high + 1, target)
      invariant !searching ==> best.None? && !r.Fits(0, target)
      invariant best.None? && high < 0 ==> !r.Fits(0, target)
      decreases searching, high + 1 - low
    {
      var count := low + (high - low) / 2;
      var b := r.render(count);
      if b.None? {
        return Failed;
      }
      if |b.value| <= target {
        best := Some(count);
        low := count + 1;
      } else if count == 0 {
        searching := false;
      } else {
        high := count - 1;
      }
    }
    if best.None? {
      var b := r.render(0);
      if b.None? {
        return Failed;
      }
      return TooLarge;
    }
    var written := best.value;
    var b := r.render(written);
    if b.None? {
      return Failed;
    }
    var out := b.value;
    if |out| < target {
      var p := r.pad(written, target - |out|);
      if p.None? {
        return Failed;
      }
      out := p.value;
    }
    if |out| != target {
      return Failed;
    }
    return Built(out, written, written < r.requested);
  }

  // ---------------------------------------------------------------- the final payload

  datatype VideoSummary = VideoSummary(
    dataSize: nat, lastKeyframeTimestamp: u32, lastKeyframePosition: nat, hasKeyframes: bool, canSeekToEnd: bool)

  /** What the final payload says about a file. */
  datatype Summary = Summary(
    duration: nat, fileSize: nat, audioSize: nat, lastTimestamp: u32, hasVideo: bool, hasAudio: bool,
    video: Option<VideoSummary>)

  function SummaryOf(st: FlvStats): Summary
    requires st.hasVideo ==> st.video.Some?
  {
    Summary(CalculateDuration(st), st.fileSize, st.audioDataSize, st.lastTimestamp, st.hasVideo, st.hasAudio,
            if st.video.None? then None
            else
              var v := st.video.value;
              Some(VideoSummary(v.dataSize, v.lastKeyframeTimestamp, v.lastKeyframePosition, v.keyframes != [],
                                v.lastKeyframeTimestamp == st.lastTimestamp)))
  }

  /** A keyframe index: entries of the recording, or the first few that the original metadata came with. */
  datatype Index = Entries(entries: seq<Keyframe>) | Original(count: nat)

  /**
   A script tag taken apart: whether it came with room for an index, how many index entries of its own it
   has, and how it renders once a summary and an index are put in, with or without filler bytes.
   */
  datatype Model = Model(
    spacer: Option<nat>, hasKeyframes: bool, own: nat,
    render: (Summary, Index) -> Option<bytes>, pad: (Summary, Index, nat) -> Option<bytes>)

  /** The index with room for a number of entries. */
  function IndexFor(m: Model, st: FlvStats, count: nat): Index {
    if (m.spacer.Some? || m.hasKeyframes) && st.video.Some? then
      var ks := st.video.value.keyframes;
      Entries(if count <= |ks| then ks[..count] else ks)
    else Original(count)
  }

  function FinalRenderer(m: Model, st: FlvStats): Renderer
    requires st.hasVideo ==> st.video.Some?
  {
    var indexed := (m.spacer.Some? || m.hasKeyframes) && st.video.Some?;
    Renderer(if indexed then |st.video.value.keyframes| else m.own, m.spacer,
             count => m.render(SummaryOf(st), IndexFor(m, st, count)),
             (count, n) => m.pad(SummaryOf(st), IndexFor(m, st, count), n))
  }

  /** The bytes are a rendering with this summary and index, padded if it is shorter than they are. */
  predicate Renders(m: Model, summary: Summary, index: Index, p: bytes) {
    var b := m.render(summary, index);
    b.Some? && |b.value| <= |p| && Some(p) == if |b.value| == |p| then b else m.pad(summary, index, |p| - |b.value|)
  }

  /** An index with that many of the recording's entries would make the payload longer than the target. */
  predicate Overflows(m: Model, summary: Summary, index: Index, target: nat) {
    var b := m.render(summary, index);
    b.None? || |b.value| > target
  }

  /** What filling with the final renderer means, said of the model and the statistics. */
  lemma {:induction false} FinalPayloadIs(m: Model, st: FlvStats, count: nat, target: nat, p: bytes)
    requires st.hasVideo ==> st.video.Some?
    requires FinalRenderer(m, st).Fills(count, target, p)
    ensures |p| == target && Renders(m, SummaryOf(st), IndexFor(m, st, count), p)
    ensures (m.spacer.Some? ==> 2 * count <= m.spacer.value)
    ensures (m.spacer.Some? || m.hasKeyframes) && st.video.Some? ==>
              && count <= |st.video.value.keyframes|
              && IndexFor(m, st, count) == Entries(st.video.value.keyframes[..count])
    ensures !((m.spacer.Some? || m.hasKeyframes) && st.video.Some?) ==> count <= m.own && IndexFor(m, st, count) == Original(count)
    ensures FinalRenderer(m, st).Monotone() ==>
              forall c: nat :: c > count && FinalRenderer(m, st).Allowed(c) ==>
                Overflows(m, SummaryOf(st), IndexFor(m, st, c), target)
  {
    hide SummaryOf;
    var r := FinalRenderer(m, st);
    forall c: nat | r.Monotone() && c > count && r.Allowed(c) ensures Overflows(m, SummaryOf(st), IndexFor(m, st, c), target) {
      assert !r.Fits(c, target);
    }
  }
}
