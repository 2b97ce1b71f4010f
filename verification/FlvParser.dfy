/** The synchronous FLV parser: read the header, then PreviousTagSize and tag, until input runs out. */
module FlvParser {
  import opened Bytes
  import opened FlvFraming

  /** What `on_tag` is told: a tag and the offset of its first byte. */
  datatype Located = Located(tag: FlvTag, position: nat)
  {
    function End(): nat { position + tag.Size() }
  }

  datatype PrevTagSizeMode = Ignore | Warn | Strict

  datatype Parsed = Parsed(tags: seq<Located>, ok: bool)

  /** The tags of `w`, which starts with a PreviousTagSize field at offset `pos`. */
  function SyncTags(w: bytes, pos: nat): seq<Located>
    decreases |w|, 1
  {
    if |w| < PREV_TAG_SIZE_FIELD_SIZE then []
    else SyncTake(w[PREV_TAG_SIZE_FIELD_SIZE..], pos + PREV_TAG_SIZE_FIELD_SIZE)
  }

  /** The same, from a tag on. */
  function SyncTake(w: bytes, pos: nat): seq<Located>
    decreases |w|, 0
  {
    match WholeTag(w)
    case None => []
    case Some(n) => [Located(TagAt(w), pos)] + SyncTags(w[n..], pos + n)
  }

  /** What `SyncTake` leaves unread: a truncated last tag, or less than a PreviousTagSize field. */
  function SyncTail(w: bytes): bytes
    decreases |w|
  {
    match WholeTag(w)
    case None => w
    case Some(n) =>
      if |w[n..]| < PREV_TAG_SIZE_FIELD_SIZE then []
      else SyncTail(w[n..][PREV_TAG_SIZE_FIELD_SIZE..])
  }

  function FieldValue(field: bytes): u32
    requires |field| == PREV_TAG_SIZE_FIELD_SIZE
  {
    U32(field[0], field[1], field[2], field[3])
  }

  /** The same parse with the PreviousTagSize fields checked in Strict mode. */
  function SyncParse(w: bytes, pos: nat, expected: nat, mode: PrevTagSizeMode): Parsed
    decreases |w|, 1
  {
    if |w| < PREV_TAG_SIZE_FIELD_SIZE then Parsed([], true)
    else if mode.Strict? && FieldValue(w[..PREV_TAG_SIZE_FIELD_SIZE]) != expected then Parsed([], false)
    else SyncParseTag(w[PREV_TAG_SIZE_FIELD_SIZE..], pos + PREV_TAG_SIZE_FIELD_SIZE, mode)
  }

  function SyncParseTag(w: bytes, pos: nat, mode: PrevTagSizeMode): Parsed
    decreases |w|, 0
  {
    match WholeTag(w)
    case None => Parsed([], true)
    case Some(n) =>
      var rest := SyncParse(w[n..], pos + n, n, mode);
      Parsed([Located(TagAt(w), pos)] + rest.tags, rest.ok)
  }

  /** Outside Strict mode nothing is rejected; in Strict mode the tags found are the same until it is. */
  lemma {:induction false} ModesAgree(w: bytes, pos: nat, expected: nat, mode: PrevTagSizeMode)
    ensures var p := SyncParse(w, pos, expected, mode);
            && p.tags <= SyncTags(w, pos)
            && (!mode.Strict? ==> p.ok)
            && (p.ok ==> p.tags == SyncTags(w, pos))
    decreases |w|
  {
    if |w| >= PREV_TAG_SIZE_FIELD_SIZE {
      hide WholeTag, TagAt, FieldValue;
      var v := w[PREV_TAG_SIZE_FIELD_SIZE..];
      if WholeTag(v).Some? {
        var n := WholeTag(v).value;
        ModesAgree(v[n..], pos + PREV_TAG_SIZE_FIELD_SIZE + n, n, mode);
      }
    }
  }

  // ---------------------------------------------------------------- strictness

  /** Where the `i`-th PreviousTagSize field stands: at the start, or behind a tag. */
  function FieldStart(tags: seq<Located>, pos: nat, i: nat): int
    requires i <= |tags|
  {
    if i == 0 then 0 else tags[i - 1].End() - pos
  }

  /** The field is not there in full, or it is the size of the tag before it. */
  predicate FieldRight(w: bytes, tags: seq<Located>, pos: nat, expected: nat, i: nat)
    requires i <= |tags|
  {
    var start := FieldStart(tags, pos, i);
    && start >= 0
    && (start + 4 <= |w| ==>
          U32(w[start], w[start + 1], w[start + 2], w[start + 3]) == if i == 0 then expected else tags[i - 1].tag.Size())
  }

  /** The first `k` fields are right. */
  predicate RightUpTo(w: bytes, tags: seq<Located>, pos: nat, expected: nat, k: nat)
    requires k <= |tags| + 1
  {
    forall i :: 0 <= i < k ==> FieldRight(w, tags, pos, expected, i)
  }

  /**
   A strict parse succeeds if and only if every PreviousTagSize field is right; one that does not returns
   exactly the tags before the first wrong field.
   */
  lemma {:induction false} StrictExactlyWhen(w: bytes, pos: nat, expected: nat)
    ensures var p, tags := SyncParse(w, pos, expected, Strict), SyncTags(w, pos);
            && (p.ok <==> RightUpTo(w, tags, pos, expected, |tags| + 1))
            && (!p.ok ==>
                  && |p.tags| <= |tags| && p.tags == tags[..|p.tags|]
                  && RightUpTo(w, tags, pos, expected, |p.tags|) && !FieldRight(w, tags, pos, expected, |p.tags|))
    decreases |w|
  {
    hide WholeTag, TagAt, U32, FieldRight, FieldValue;
    var tags := SyncTags(w, pos);
    FirstField(w, tags, pos, expected);
    if |w| >= 4 && WholeTag(w[4..]).Some? {
      var n := WholeTag(w[4..]).value;
      var v, next := w[4 + n..], pos + 4 + n;
      assert w[4..][n..] == v;
      SizeOfTaken(w[4..]);
      var later := SyncTags(v, next);
      assert tags == [Located(TagAt(w[4..]), pos + 4)] + later;
      StrictExactlyWhen(v, next, n);
      TagsStandBehind(v, next);
      var p, q := SyncParse(w, pos, expected, Strict), SyncParse(v, next, n, Strict);
      assert FieldRight(w, tags, pos, expected, 0) ==> p == Parsed([tags[0]] + q.tags, q.ok);
      hide SyncTags, SyncParse;
      ShiftUpTo(w, tags, pos, expected, n, later, |later| + 1);
      if FieldRight(w, tags, pos, expected, 0) && !q.ok {
        hide RightUpTo;
        assert p.tags == tags[..|q.tags| + 1];
        ShiftUpTo(w, tags, pos, expected, n, later, |q.tags|);
        FieldShifts(w, tags, pos, expected, n, later, |q.tags|);
      }
    }
  }

  lemma {:induction false} ShiftUpTo(w: bytes, tags: seq<Located>, pos: nat, expected: nat, n: nat,
                                     later: seq<Located>, k: nat)
    requires 4 + n <= |w| && tags != [] && tags[1..] == later && k <= |later| + 1
    requires tags[0].position == pos + 4 && tags[0].tag.Size() == n
    requires forall i :: 0 <= i < |later| ==> later[i].position >= pos + 4 + n
    ensures RightUpTo(w, tags, pos, expected, k + 1) <==>
              FieldRight(w, tags, pos, expected, 0) && RightUpTo(w[4 + n..], later, pos + 4 + n, n, k)
    decreases k
  {
    hide FieldRight;
    if k > 0 {
      ShiftUpTo(w, tags, pos, expected, n, later, k - 1);
      FieldShifts(w, tags, pos, expected, n, later, k - 1);
      OneMore(w, tags, pos, expected, k);
      OneMore(w[4 + n..], later, pos + 4 + n, n, k - 1);
      hide RightUpTo;
    }
  }

  lemma {:induction false} OneMore(w: bytes, tags: seq<Located>, pos: nat, expected: nat, k: nat)
    requires k <= |tags|
    ensures RightUpTo(w, tags, pos, expected, k + 1) <==>
              RightUpTo(w, tags, pos, expected, k) && FieldRight(w, tags, pos, expected, k)
  {
    hide FieldRight;
  }

  lemma {:induction false} TagsStandBehind(w: bytes, pos: nat)
    ensures forall i :: 0 <= i < |SyncTags(w, pos)| ==> SyncTags(w, pos)[i].position >= pos
    decreases |w|
  {
    hide WholeTag, TagAt;
    if |w| >= 4 && WholeTag(w[4..]).Some? {
      var n := WholeTag(w[4..]).value;
      var later := SyncTags(w[4..][n..], pos + 4 + n);
      TagsStandBehind(w[4..][n..], pos + 4 + n);
      assert SyncTags(w, pos) == [Located(TagAt(w[4..]), pos + 4)] + later;
    }
  }

  lemma {:induction false} SizeOfTaken(w: bytes)
    requires WholeTag(w).Some?
    ensures TagAt(w).Size() == WholeTag(w).value <= |w|
  {}

  lemma {:induction false} FirstField(w: bytes, tags: seq<Located>, pos: nat, expected: nat)
    ensures FieldRight(w, tags, pos, expected, 0) <==> |w| < 4 || FieldValue(w[..4]) == expected
  {
    hide U32;
  }

  lemma {:induction false} FieldShifts(w: bytes, tags: seq<Located>, pos: nat, expected: nat, n: nat,
                                       later: seq<Located>, i: nat)
    requires 4 + n <= |w| && tags != [] && tags[1..] == later && i <= |later|
    requires tags[0].position == pos + 4 && tags[0].tag.Size() == n
    requires i > 0 ==> later[i - 1].position >= pos + 4 + n
    ensures FieldRight(w, tags, pos, expected, i + 1) <==> FieldRight(w[4 + n..], later, pos + 4 + n, n, i)
  {
    hide U32;
  }

  // ---------------------------------------------------------------- truncation

  /** The leading tags that end by offset `limit`. */
  function Within(tags: seq<Located>, limit: nat): seq<Located> {
    if tags == [] || tags[0].End() > limit then [] else [tags[0]] + Within(tags[1..], limit)
  }

  /** Cutting any input anywhere loses exactly the tags that do not end before the cut. */
  lemma {:induction false} TruncationLosesOnlyTheCutTag(w: bytes, k: nat, pos: nat)
    requires k <= |w|
    ensures SyncTags(w[..k], pos) == Within(SyncTags(w, pos), pos + k)
    decreases |w|
  {
    if k >= PREV_TAG_SIZE_FIELD_SIZE {
      var p := PREV_TAG_SIZE_FIELD_SIZE;
      assert w[..k][p..] == w[p..][..k - p];
      TakeTruncated(w[p..], k - p, pos + p);
    } else if |w| >= PREV_TAG_SIZE_FIELD_SIZE {
      var v := w[PREV_TAG_SIZE_FIELD_SIZE..];
      assert SyncTake(v, pos + PREV_TAG_SIZE_FIELD_SIZE) == [] || WholeTag(v).Some?;
    }
  }

  lemma {:induction false} TakeTruncated(w: bytes, k: nat, pos: nat)
    requires k <= |w|
    ensures SyncTake(w[..k], pos) == Within(SyncTake(w, pos), pos + k)
    decreases |w|, 0
  {
    if k >= TAG_HEADER_SIZE {
      assert ParseTagHeader(w[..k]) == ParseTagHeader(w);
    }
    match WholeTag(w)
    case None =>
    case Some(n) =>
      assert SyncTake(w, pos) == [Located(TagAt(w), pos)] + SyncTags(w[n..], pos + n);
      if n <= k {
        assert w[..k][TAG_HEADER_SIZE..n] == w[TAG_HEADER_SIZE..n];
        assert w[..k][n..] == w[n..][..k - n];
        TruncationLosesOnlyTheCutTag(w[n..], k - n, pos + n);
      }
  }

  // ---------------------------------------------------------------- the parser itself

  class Reader {
    var rest: bytes

    constructor (data: bytes)
      ensures rest == data
    {
      rest := data;
    }

    /** `read_exact`: `None` is an unexpected end of input, which leaves nothing to read. */
    method ReadExact(n: nat) returns (r: Option<bytes>)
      modifies this
      ensures |old(rest)| < n ==> r == None && rest == []
      ensures |old(rest)| >= n ==> r == Some(old(rest)[..n]) && rest == old(rest)[n..]
    {
      if |rest| < n {
        rest := [];
        return None;
      }
      r := Some(rest[..n]);
      rest := rest[n..];
    }
  }

  method ParseTag(reader: Reader) returns (r: Option<FlvTag>)
    modifies reader
    ensures match WholeTag(old(reader.rest))
            case None => r == None
            case Some(n) =>
              && r == Some(TagAt(old(reader.rest))) && r.value.Size() == n
              && reader.rest == old(reader.rest)[n..]
  {
    ghost var w := reader.rest;
    var h := reader.ReadExact(TAG_HEADER_SIZE);
    if h.None? {
      return None;
    }
    var header := ParseTagHeader(h.value);
    assert header == ParseTagHeader(w);
    var data := reader.ReadExact(header.dataSize);
    if data.None? {
      return None;
    }
    assert w[TAG_HEADER_SIZE..][..header.dataSize] == w[TAG_HEADER_SIZE..WholeTag(w).value];
    return Some(TagOf(header, data.value));
  }

  /** The tag loop. `tags` is what the callback saw; `ok` is false for a Strict mismatch. */
  method ParseTags(reader: Reader, currentPosition: nat, mode: PrevTagSizeMode)
    returns (tags: seq<Located>, ok: bool)
    modifies reader
    ensures Parsed(tags, ok) == SyncParse(old(reader.rest), currentPosition, 0, mode)
  {
    hide WholeTag, TagAt, FieldValue;
    var pos: nat, expected: nat := currentPosition, 0;
    ghost var goal := SyncParse(reader.rest, pos, 0, mode);
    tags := [];
    while true
      invariant goal == Parsed(tags + SyncParse(reader.rest, pos, expected, mode).tags,
                               SyncParse(reader.rest, pos, expected, mode).ok)
      decreases |reader.rest|
    {
      var prev := reader.ReadExact(PREV_TAG_SIZE_FIELD_SIZE);
      if prev.None? {
        return tags, true;
      }
      if mode.Strict? && FieldValue(prev.value) != expected {
        return tags, false;
      }
      pos := pos + PREV_TAG_SIZE_FIELD_SIZE;
      var tag := ParseTag(reader);
      if tag.None? {
        return tags, true;
      }
      ghost var rest := SyncParse(reader.rest, pos + tag.value.Size(), tag.value.Size(), mode).tags;
      assert tags + ([Located(tag.value, pos)] + rest) == (tags + [Located(tag.value, pos)]) + rest;
      tags := tags + [Located(tag.value, pos)];
      expected := tag.value.Size();
      pos := pos + tag.value.Size();
    }
  }
}
