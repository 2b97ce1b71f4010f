/**
 What the decoders make of what the writers write, and where the incremental decoder and the
 synchronous parser agree on any input.
 */
module FlvRoundTrip {
  import opened Bytes
  import opened FlvFraming
  import opened FlvStream
  import opened FlvParser
  import opened FlvWriter

  /** A tag as it comes back: FLV files always carry stream id 0. */
  function Canonical(t: FlvTag): FlvTag {
    t.(streamId := 0)
  }

  /** Tags laid out one after the other, each with a 4-byte field after it, from offset `pos`. */
  function Laid(tags: seq<FlvTag>, pos: nat): seq<Located> {
    if tags == [] then []
    else [Located(Canonical(tags[0]), pos)] + Laid(tags[1..], pos + tags[0].Size() + PREV_TAG_SIZE_FIELD_SIZE)
  }

  function AsEmitted(tags: seq<Located>): seq<Emitted> {
    if tags == [] then [] else [Emitted(Tag(tags[0].tag), tags[0].End())] + AsEmitted(tags[1..])
  }

  // ---------------------------------------------------------------- one written tag

  lemma {:induction false} TagBytesParse(t: FlvTag, rest: bytes)
    requires t.Writable()
    ensures var w := TagBytes(t) + rest;
            && IsTagStart(w[0])
            && WholeTag(w) == Some(t.Size())
            && TagAt(w) == Canonical(t)
            && w[t.Size()..] == rest
  {
    hide TagHeaderBytes, ParseTagHeader;
    var h := TagHeaderBytes(t.tagType, t.isFiltered, |t.data|, t.timestampMs, 0);
    var w := TagBytes(t) + rest;
    TagHeaderRoundTrip(t.tagType, t.isFiltered, |t.data|, t.timestampMs, 0);
    ParseTagHeaderPrefix(h, w);
    assert w[TAG_HEADER_SIZE..t.Size()] == t.data;
  }

  lemma {:induction false} ParseTagHeaderPrefix(h: bytes, w: bytes)
    requires TAG_HEADER_SIZE <= |h| <= |w| && w[..|h|] == h
    ensures ParseTagHeader(w) == ParseTagHeader(h)
  {
    assert forall i :: 0 <= i < |h| ==> w[i] == h[i];
  }

  // ---------------------------------------------------------------- FlvWriter and the synchronous parser

  lemma {:induction false} SyncReadsOne(prev: bytes, t: FlvTag, rest: bytes, pos: nat, mode: PrevTagSizeMode)
    requires t.Writable() && |prev| == PREV_TAG_SIZE_FIELD_SIZE
    ensures var start := pos + PREV_TAG_SIZE_FIELD_SIZE;
            var p := SyncParse(rest, start + t.Size(), t.Size(), mode);
            SyncParse(prev + (TagBytes(t) + rest), pos, FieldValue(prev), mode)
            == Parsed([Located(Canonical(t), start)] + p.tags, p.ok)
  {
    hide TagBytes, WholeTag, TagAt, FieldValue, Canonical;
    TagBytesParse(t, rest);
    var v := TagBytes(t) + rest;
    assert (prev + v)[PREV_TAG_SIZE_FIELD_SIZE..] == v && (prev + v)[..PREV_TAG_SIZE_FIELD_SIZE] == prev;
  }

  lemma {:induction false} SyncReadsWritten(prev: bytes, tags: seq<FlvTag>, pos: nat, mode: PrevTagSizeMode)
    requires AllWritable(tags) && |prev| == PREV_TAG_SIZE_FIELD_SIZE
    ensures SyncParse(prev + WrittenTags(tags), pos, FieldValue(prev), mode)
         == Parsed(Laid(tags, pos + PREV_TAG_SIZE_FIELD_SIZE), true)
    decreases tags
  {
    hide SyncParse, TagBytes, U32Bytes, FieldValue, Canonical, WrittenTags, Laid;
    if tags == [] {
      SyncReadsNothing(prev, pos, mode);
    } else {
      var t, later := tags[0], WrittenTags(tags[1..]);
      WrittenFirst(tags);
      LaidFirst(tags, pos + PREV_TAG_SIZE_FIELD_SIZE);
      SyncReadsOne(prev, t, U32Bytes(t.Size()) + later, pos, mode);
      SizeField(t.Size());
      SyncReadsWritten(U32Bytes(t.Size()), tags[1..], pos + PREV_TAG_SIZE_FIELD_SIZE + t.Size(), mode);
    }
  }

  lemma {:induction false} SyncReadsNothing(prev: bytes, pos: nat, mode: PrevTagSizeMode)
    requires |prev| == PREV_TAG_SIZE_FIELD_SIZE
    ensures SyncParse(prev + WrittenTags([]), pos, FieldValue(prev), mode)
         == Parsed(Laid([], pos + PREV_TAG_SIZE_FIELD_SIZE), true)
  {
    assert (prev + [])[PREV_TAG_SIZE_FIELD_SIZE..] == [];
    assert prev + WrittenTags([]) == prev + [];
  }

  lemma {:induction false} LaidFirst(tags: seq<FlvTag>, pos: nat)
    requires tags != []
    ensures Laid(tags, pos) ==
            [Located(Canonical(tags[0]), pos)] + Laid(tags[1..], pos + tags[0].Size() + PREV_TAG_SIZE_FIELD_SIZE)
  {}

  lemma {:induction false} SizeField(n: u32)
    ensures FieldValue(U32Bytes(n)) == n
  {
    U32BytesValue(n);
  }

  lemma {:induction false} HeaderEnd(header: FlvHeader, rest: bytes)
    ensures (HeaderBytes(header) + rest)[9..] == U32Bytes(0) + rest
  {}

  /** The synchronous parser accepts every file of `FlvWriter`, also in Strict mode, and finds its tags. */
  lemma {:induction false} SyncRoundTrip(header: FlvHeader, tags: seq<FlvTag>, mode: PrevTagSizeMode)
    requires header.version == 1 && AllWritable(tags)
    ensures var file := FileBytes(header, tags);
            && ParseHeader(file) == Some(header.(dataOffset := 9))
            && SyncParse(file[9..], 9, 0, mode) == Parsed(Laid(tags, 13), true)
  {
    hide HeaderBytes, ParseHeader, WrittenTags, SyncParse, FieldValue, U32Bytes, Laid;
    HeaderRoundTrip(header, WrittenTags(tags));
    HeaderEnd(header, WrittenTags(tags));
    SizeField(0);
    SyncReadsWritten(U32Bytes(0), tags, 9, mode);
  }

  // ---------------------------------------------------------------- FlvWriter and the incremental decoder

  /** `TagsFrom` on a stream that starts with a tag both writers would write. */
  lemma {:induction false} TagsFromWrittenTag(t: FlvTag, rest: bytes, pos: nat)
    requires t.Writable()
    ensures TagsFrom(TagBytes(t) + rest, pos) ==
            Prepend([Emitted(Tag(Canonical(t)), pos + t.Size())], AfterTag(rest, pos + t.Size()))
  {
    hide TagBytes, WholeTag, TagAt;
    var w := TagBytes(t) + rest;
    TagBytesParse(t, rest);
    TagsFromTakes(w, [], pos);
    assert w + [] == w && rest + [] == rest;
  }

  lemma {:induction false} IncrementalReadsWritten(tags: seq<FlvTag>, pos: nat)
    requires AllWritable(tags)
    ensures TagsFrom(WrittenTags(tags), pos) == Run(AsEmitted(Laid(tags, pos)), false)
    decreases tags
  {
    hide TagBytes, U32Bytes, TagsFrom;
    if tags == [] {
      NothingFromEmpty(pos);
    } else {
      var t, size := tags[0], U32Bytes(tags[0].Size());
      var later := WrittenTags(tags[1..]);
      assert WrittenTags(tags) == TagBytes(t) + (size + later);
      TagsFromWrittenTag(t, size + later, pos);
      assert (size + later)[PREV_TAG_SIZE_FIELD_SIZE..] == later;
      var end := pos + t.Size() + PREV_TAG_SIZE_FIELD_SIZE;
      IncrementalReadsWritten(tags[1..], end);
      AsEmittedCons(Located(Canonical(t), pos), Laid(tags[1..], end));
    }
  }

  lemma {:induction false} NothingFromEmpty(pos: nat)
    ensures TagsFrom([], pos) == Quiet
  {}

  lemma {:induction false} AsEmittedCons(x: Located, xs: seq<Located>)
    ensures AsEmitted([x] + xs) == [Emitted(Tag(x.tag), x.End())] + AsEmitted(xs)
  {
    assert ([x] + xs)[1..] == xs;
  }

  /**
   The incremental decoder returns the header and every tag of a file of `FlvWriter`. The
   positions are those of the layout, so no byte was skipped on the way.
   */
  lemma {:induction false} IncrementalRoundTrip(header: FlvHeader, tags: seq<FlvTag>)
    requires header.version == 1 && AllWritable(tags)
    ensures Reference(FileBytes(header, tags)) ==
            Run([Emitted(Header(header.(dataOffset := 9)), 13)] + AsEmitted(Laid(tags, 13)), false)
  {
    ReferenceOfHeader(header, WrittenTags(tags));
    IncrementalReadsWritten(tags, 13);
  }

  lemma {:induction false} ReferenceOfHeader(header: FlvHeader, rest: bytes)
    requires header.version == 1
    ensures Reference(HeaderBytes(header) + rest) ==
            Prepend([Emitted(Header(header.(dataOffset := 9)), 13)], TagsFrom(rest, 13))
  {
    hide TagsFrom;
    HeaderRoundTrip(header, rest);
    var w := HeaderBytes(header) + rest;
    assert w[0] == 0x46 && !IsTagStart(w[0]);
    assert w[13..] == rest;
  }

  // ---------------------------------------------------------------- FlvEncoder and the incremental decoder

  lemma {:induction false} IncrementalReadsEncoded(tags: seq<FlvTag>, last: u32, pos: nat)
    requires AllWritable(tags)
    ensures AfterTag(EncodedTags(tags, last), pos) ==
            Run(AsEmitted(Laid(tags, pos + PREV_TAG_SIZE_FIELD_SIZE)), false)
    decreases tags
  {
    hide TagBytes, U32Bytes, TagsFrom;
    if tags != [] {
      var t := tags[0];
      var later := EncodedTags(tags[1..], t.Size());
      var w := EncodedTags(tags, last);
      assert w[PREV_TAG_SIZE_FIELD_SIZE..] == TagBytes(t) + later;
      TagsFromWrittenTag(t, later, pos + PREV_TAG_SIZE_FIELD_SIZE);
      IncrementalReadsEncoded(tags[1..], t.Size(), pos + PREV_TAG_SIZE_FIELD_SIZE + t.Size());
      AsEmittedCons(Located(Canonical(t), pos + PREV_TAG_SIZE_FIELD_SIZE),
                    Laid(tags[1..], pos + PREV_TAG_SIZE_FIELD_SIZE + t.Size() + PREV_TAG_SIZE_FIELD_SIZE));
    }
  }

  /**
   `FlvEncoder` writes PreviousTagSize0 twice. The incremental decoder still returns every tag:
   the first one starts at 17, so exactly the four zero bytes at 13 were skipped.
   */
  lemma {:induction false} EncoderIsRecoverable(header: FlvHeader, tags: seq<FlvTag>)
    requires header.version == 1 && AllWritable(tags)
    ensures Reference(EncoderBytes(header, tags)) ==
            Run([Emitted(Header(header.(dataOffset := 9)), 13)] + AsEmitted(Laid(tags, 17)), false)
  {
    hide TagsFrom;
    var w := EncodedTags(tags, 0);
    ReferenceOfHeader(header, w);
    if tags == [] {
      NothingFromEmpty(13);
    } else {
      SkipsZeroField(tags);
      IncrementalReadsEncoded(tags, 0, 13);
    }
  }

  lemma {:induction false} SkipsZeroField(tags: seq<FlvTag>)
    requires AllWritable(tags) && tags != []
    ensures TagsFrom(EncodedTags(tags, 0), 13) == AfterTag(EncodedTags(tags, 0), 13)
  {
    hide TagsFrom;
    var zeros: bytes := [0, 0, 0, 0];
    var rest := TagBytes(tags[0]) + EncodedTags(tags[1..], tags[0].Size());
    assert U32Bytes(0) == zeros;
    var w := EncodedTags(tags, 0);
    assert w == zeros + rest;
    FindTagStartUnique(zeros, 0, 4);
    TagsFromSkips(zeros, rest, 13);
    assert zeros[4..] + rest == rest == w[4..];
  }

  // ---------------------------------------------------------------- truncated files

  lemma {:induction false} IncrementalReadsPrefix(tags: seq<FlvTag>, k: nat, pos: nat)
    requires AllWritable(tags) && k <= |WrittenTags(tags)|
    ensures TagsFrom(WrittenTags(tags)[..k], pos) == Run(AsEmitted(Within(Laid(tags, pos), pos + k)), false)
    decreases tags
  {
    hide *;
    if tags == [] {
      NothingFromEmpty(pos);
      NoTags(pos, pos + k);
    } else if k < tags[0].Size() {
      PrefixCutsFirst(tags, k, pos);
    } else {
      WrittenFirst(tags);
      var n, later := tags[0].Size(), WrittenTags(tags[1..]);
      FirstTagOfCut(tags[0], later, k, pos);
      EmittedWithin(tags, k, pos);
      if k - n < PREV_TAG_SIZE_FIELD_SIZE {
        NothingWithin(tags[1..], pos + n + PREV_TAG_SIZE_FIELD_SIZE, pos + k);
      } else {
        IncrementalReadsPrefix(tags[1..], k - n - PREV_TAG_SIZE_FIELD_SIZE, pos + n + PREV_TAG_SIZE_FIELD_SIZE);
      }
    }
  }

  lemma {:induction false} NoTags(pos: nat, limit: nat)
    ensures WrittenTags([]) == [] && AsEmitted(Within(Laid([], pos), limit)) == [] && Quiet == Run([], false)
  {}

  lemma {:induction false} PrefixCutsFirst(tags: seq<FlvTag>, k: nat, pos: nat)
    requires tags != [] && AllWritable(tags) && k < tags[0].Size() && k <= |WrittenTags(tags)|
    ensures TagsFrom(WrittenTags(tags)[..k], pos) == Run(AsEmitted(Within(Laid(tags, pos), pos + k)), false)
  {
    hide TagBytes, U32Bytes, TagsFrom, AsEmitted;
    var t := tags[0];
    CutTagBytes(t, k);
    CutTagIsQuiet(TagBytes(t)[..k], pos);
    PrefixOfPair(TagBytes(t), U32Bytes(t.Size()) + WrittenTags(tags[1..]), k);
    assert WrittenTags(tags) == TagBytes(t) + (U32Bytes(t.Size()) + WrittenTags(tags[1..]));
    NothingEmitted();
  }

  lemma {:induction false} WrittenFirst(tags: seq<FlvTag>)
    requires tags != [] && AllWritable(tags)
    ensures tags[0].Writable() && AllWritable(tags[1..]) && |TagBytes(tags[0])| == tags[0].Size()
    ensures |U32Bytes(tags[0].Size())| == PREV_TAG_SIZE_FIELD_SIZE
    ensures WrittenTags(tags) == TagBytes(tags[0]) + (U32Bytes(tags[0].Size()) + WrittenTags(tags[1..]))
  {
    hide U32Bytes;
  }

  /** A cut behind the first tag: that tag, and what the cut leaves of the bytes after it. */
  lemma {:induction false} FirstTagOfCut(t: FlvTag, later: bytes, k: nat, pos: nat)
    requires t.Writable() && t.Size() <= k <= t.Size() + PREV_TAG_SIZE_FIELD_SIZE + |later|
    ensures var n := t.Size();
            var rest := if k - n < PREV_TAG_SIZE_FIELD_SIZE then Run(AsEmitted([]), false)
                        else TagsFrom(later[..k - n - PREV_TAG_SIZE_FIELD_SIZE], pos + n + PREV_TAG_SIZE_FIELD_SIZE);
            TagsFrom((TagBytes(t) + (U32Bytes(n) + later))[..k], pos) ==
            Run([Emitted(Tag(Canonical(t)), pos + n)] + rest.items, rest.failed)
  {
    hide TagBytes, U32Bytes, TagsFrom;
    var n, size := t.Size(), U32Bytes(t.Size());
    PrefixOfPair(TagBytes(t), size + later, k);
    TagsFromWrittenTag(t, (size + later)[..k - n], pos);
    PrefixOfPair(size, later, k - n);
    if k - n >= PREV_TAG_SIZE_FIELD_SIZE {
      var j := k - n - PREV_TAG_SIZE_FIELD_SIZE;
      assert (size + later[..j])[PREV_TAG_SIZE_FIELD_SIZE..] == later[..j];
    }
  }

  lemma {:induction false} EmittedWithin(tags: seq<FlvTag>, k: nat, pos: nat)
    requires tags != [] && tags[0].Size() <= k
    ensures var t := tags[0];
            AsEmitted(Within(Laid(tags, pos), pos + k)) ==
            [Emitted(Tag(Canonical(t)), pos + t.Size())]
            + AsEmitted(Within(Laid(tags[1..], pos + t.Size() + PREV_TAG_SIZE_FIELD_SIZE), pos + k))
  {
    var x := Located(Canonical(tags[0]), pos);
    var xs := Laid(tags[1..], pos + tags[0].Size() + PREV_TAG_SIZE_FIELD_SIZE);
    WithinCons(x, xs, pos + k);
    AsEmittedCons(x, Within(xs, pos + k));
    assert Laid(tags, pos) == [x] + xs && x.End() == pos + tags[0].Size();
    hide Within, AsEmitted, Laid;
  }

  lemma {:induction false} PrefixOfPair(a: bytes, b: bytes, k: nat)
    requires k <= |a + b|
    ensures (a + b)[..k] == if k < |a| then a[..k] else a + b[..k - |a|]
  {}

  lemma {:induction false} NothingEmitted()
    ensures AsEmitted([]) == []
  {}

  lemma {:induction false} CutTagBytes(t: FlvTag, k: nat)
    requires t.Writable() && k < t.Size()
    ensures var w := TagBytes(t)[..k];
            WholeTag(w).None? && (|w| >= TAG_HEADER_SIZE ==> IsTagStart(w[0]))
  {
    hide TagBytes, ParseTagHeader;
    var w := TagBytes(t)[..k];
    TagBytesParse(t, []);
    assert TagBytes(t) + [] == TagBytes(t);
    if k >= TAG_HEADER_SIZE {
      ParseTagHeaderPrefix(w, TagBytes(t));
    }
  }

  lemma {:induction false} NothingWithin(tags: seq<FlvTag>, pos: nat, limit: nat)
    requires limit < pos
    ensures Within(Laid(tags, pos), limit) == []
  {}

  lemma {:induction false} WithinCons(x: Located, xs: seq<Located>, limit: nat)
    ensures Within([x] + xs, limit) == if x.End() > limit then [] else [x] + Within(xs, limit)
  {
    assert ([x] + xs)[1..] == xs;
  }

  /** A file of `FlvWriter` cut to `k` bytes. */
  function CutFile(header: FlvHeader, tags: seq<FlvTag>, k: nat): bytes
    requires AllWritable(tags) && k <= |FileBytes(header, tags)|
  {
    FileBytes(header, tags)[..k]
  }

  /**
   A file of `FlvWriter` cut at any byte from the ninth on: the incremental decoder finds exactly
   the tags that end before the cut and reports no error. `SyncReadsCutFile` says the same of the
   synchronous parser, so the two agree on every prefix.
   */
  lemma {:induction false} IncrementalReadsCutFile(header: FlvHeader, tags: seq<FlvTag>, k: nat)
    requires header.version == 1 && AllWritable(tags) && k <= |FileBytes(header, tags)|
    ensures Reference(CutFile(header, tags, k)) ==
            if k < 13 then Quiet
            else Run([Emitted(Header(header.(dataOffset := 9)), 13)] + AsEmitted(Within(Laid(tags, 13), k)), false)
  {
    hide *;
    if k < 9 {
      ShortCut(header, tags, k);
      return;
    }
    CutFileParts(header, tags, k);
    if k < 13 {
      CutHeader(header, FileBytes(header, tags)[9..k]);
    } else {
      ReferenceOfHeader(header, WrittenTags(tags)[..k - 13]);
      IncrementalReadsPrefix(tags, k - 13, 13);
      PrependToRun(Emitted(Header(header.(dataOffset := 9)), 13), AsEmitted(Within(Laid(tags, 13), k)));
    }
  }

  lemma {:induction false} ShortCut(header: FlvHeader, tags: seq<FlvTag>, k: nat)
    requires AllWritable(tags) && k < 9 && k <= |FileBytes(header, tags)|
    ensures Reference(CutFile(header, tags, k)) == Quiet
  {
    hide WrittenTags;
    var w := CutFile(header, tags, k);
    assert w != [] ==> w[0] == HeaderBytes(header)[0] && !IsTagStart(w[0]);
  }

  lemma {:induction false} PrependToRun(x: Emitted, xs: seq<Emitted>)
    ensures Prepend([x], Run(xs, false)) == Run([x] + xs, false)
  {}

  lemma {:induction false} CutFileParts(header: FlvHeader, tags: seq<FlvTag>, k: nat)
    requires AllWritable(tags)
    requires 9 <= k <= |FileBytes(header, tags)|
    ensures CutFile(header, tags, k) == HeaderBytes(header)[..9] + FileBytes(header, tags)[9..k]
    ensures CutFile(header, tags, k)[9..] == FileBytes(header, tags)[9..][..k - 9]
    ensures k >= 13 ==> k - 13 <= |WrittenTags(tags)|
    ensures k >= 13 ==> CutFile(header, tags, k) == HeaderBytes(header) + WrittenTags(tags)[..k - 13]
  {
    hide HeaderBytes, WrittenTags;
  }

  lemma {:induction false} CutHeader(h: FlvHeader, rest: bytes)
    requires h.version == 1
    ensures var w := HeaderBytes(h)[..9] + rest;
            && ParseHeader(w) == Some(h.(dataOffset := 9))
            && (|rest| < 4 ==> Reference(w) == Quiet)
  {
    var w := HeaderBytes(h)[..9] + rest;
    assert w[4] == HeaderFlags(h);
    assert U32(w[5], w[6], w[7], w[8]) == 9;
    assert !IsTagStart(w[0]);
  }

  lemma {:induction false} SyncReadsCutFile(header: FlvHeader, tags: seq<FlvTag>, k: nat)
    requires header.version == 1 && AllWritable(tags)
    requires 9 <= k <= |FileBytes(header, tags)|
    ensures ParseHeader(CutFile(header, tags, k)) == Some(header.(dataOffset := 9))
    ensures SyncTags(CutFile(header, tags, k)[9..], 9) == Within(Laid(tags, 13), k)
  {
    hide *;
    var file := FileBytes(header, tags);
    CutFileParts(header, tags, k);
    CutHeader(header, file[9..k]);
    SyncRoundTrip(header, tags, Ignore);
    ModesAgree(file[9..], 9, 0, Ignore);
    TruncationLosesOnlyTheCutTag(file[9..], k - 9, 9);
  }

  // ---------------------------------------------------------------- the two decoders on any input

  predicate AllKnown(tags: seq<Located>) {
    forall i :: 0 <= i < |tags| ==> tags[i].tag.tagType.Known()
  }

  /** Where every tag the synchronous parser finds has a known type, the incremental decoder finds
      those first, and then whatever whole tags lie hidden in the bytes the other one left unread. */
  lemma {:induction false} KnownTagsAgree(w: bytes, pos: nat)
    requires AllKnown(SyncTake(w, pos))
    ensures |SyncTail(w)| <= |w|
    ensures TagsFrom(w, pos).items ==
            AsEmitted(SyncTake(w, pos)) + TagsFrom(SyncTail(w), pos + |w| - |SyncTail(w)|).items
    decreases |w|
  {
    hide WholeTag, TagAt, TagsFrom;
    match WholeTag(w)
    case None =>
      assert AsEmitted(SyncTake(w, pos)) == [];
    case Some(n) =>
      var rest := w[n..];
      KnownHead(w, pos);
      hide SyncTake;
      if |rest| < PREV_TAG_SIZE_FIELD_SIZE {
        NothingFromEmpty(pos + |w|);
        assert AsEmitted(SyncTags(rest, pos + n)) == [];
      } else {
        var v := rest[PREV_TAG_SIZE_FIELD_SIZE..];
        KnownTagsAgree(v, pos + n + PREV_TAG_SIZE_FIELD_SIZE);
        assert SyncTail(w) == SyncTail(v);
      }
  }

  lemma {:induction false} KnownHead(w: bytes, pos: nat)
    requires AllKnown(SyncTake(w, pos)) && WholeTag(w).Some?
    ensures var n := WholeTag(w).value;
            && TagsFrom(w, pos) == Prepend([Emitted(Tag(TagAt(w)), pos + n)], AfterTag(w[n..], pos + n))
            && TagAt(w).Size() == n
            && AllKnown(SyncTags(w[n..], pos + n))
            && AsEmitted(SyncTake(w, pos)) == [Emitted(Tag(TagAt(w)), pos + n)] + AsEmitted(SyncTags(w[n..], pos + n))
  {
    hide *;
    KnownHeadIsTaken(w, pos);
    KnownHeadIsEmitted(w, pos);
  }

  lemma {:induction false} KnownHeadIsEmitted(w: bytes, pos: nat)
    requires AllKnown(SyncTake(w, pos)) && WholeTag(w).Some?
    ensures var n := WholeTag(w).value;
            && TagAt(w).tagType.Known() && TagAt(w).Size() == n
            && AllKnown(SyncTags(w[n..], pos + n))
            && AsEmitted(SyncTake(w, pos)) == [Emitted(Tag(TagAt(w)), pos + n)] + AsEmitted(SyncTags(w[n..], pos + n))
  {
    var n := WholeTag(w).value;
    var found, later := SyncTake(w, pos), SyncTags(w[n..], pos + n);
    assert found == [Located(TagAt(w), pos)] + later;
    hide SyncTags, SyncTake, ParseTagHeader;
    assert found[0].tag.tagType.Known();
    assert forall i :: 0 <= i < |later| ==> later[i] == found[i + 1];
    AsEmittedCons(Located(TagAt(w), pos), later);
  }

  lemma {:induction false} KnownHeadIsTaken(w: bytes, pos: nat)
    requires AllKnown(SyncTake(w, pos)) && WholeTag(w).Some?
    ensures var n := WholeTag(w).value;
            TagsFrom(w, pos) == Prepend([Emitted(Tag(TagAt(w)), pos + n)], AfterTag(w[n..], pos + n))
  {
    KnownHeadIsEmitted(w, pos);
    hide SyncTake, AllKnown, TagsFrom, AfterTag;
    TagsFromTakes(w, [], pos);
    assert w + [] == w && w[WholeTag(w).value..] + [] == w[WholeTag(w).value..];
  }

  predicate KnownItems(items: seq<Emitted>) {
    forall i :: 0 <= i < |items| ==> items[i].data.Tag? && items[i].data.tag.tagType.Known()
  }

  lemma {:induction false} TagsFromKnown(w: bytes, pos: nat)
    ensures KnownItems(TagsFrom(w, pos).items)
    decreases |w|
  {
    hide *;
    OneTagThenMore(w, pos);
    if WholeTag(w[FindTagStart(w)..]).Some? {
      var v := w[FindTagStart(w)..];
      var rest := v[WholeTag(v).value..];
      if |rest| >= PREV_TAG_SIZE_FIELD_SIZE {
        TagsFromKnown(rest[PREV_TAG_SIZE_FIELD_SIZE..],
                      pos + FindTagStart(w) + WholeTag(v).value + PREV_TAG_SIZE_FIELD_SIZE);
      }
    }
  }

  /** The first tag is known; the others are the tags behind it. */
  lemma {:induction false} OneTagThenMore(w: bytes, pos: nat)
    ensures var v := w[FindTagStart(w)..];
            if WholeTag(v).None? then KnownItems(TagsFrom(w, pos).items)
            else
              var rest := v[WholeTag(v).value..];
              var end := pos + FindTagStart(w) + WholeTag(v).value;
              && |rest| < |w| && PREV_TAG_SIZE_FIELD_SIZE >= 0
              && if |rest| < PREV_TAG_SIZE_FIELD_SIZE then KnownItems(TagsFrom(w, pos).items)
                 else KnownItems(TagsFrom(rest[PREV_TAG_SIZE_FIELD_SIZE..], end + PREV_TAG_SIZE_FIELD_SIZE).items)
                      ==> KnownItems(TagsFrom(w, pos).items)
  {
    var q := FindTagStart(w);
    var v := w[q..];
    assert TagsFrom(w, pos) == TakeTag(v, pos + q);
    hide TagsFrom, WholeTag, TagAt, FindTagStart;
    if WholeTag(v).Some? {
      FoundTagIsKnown(w);
    }
  }

  lemma {:induction false} FoundTagIsKnown(w: bytes)
    requires WholeTag(w[FindTagStart(w)..]).Some?
    ensures TagAt(w[FindTagStart(w)..]).tagType.Known()
  {
    FindTagStartFirst(w, 0);
    hide FindTagStart;
  }

  lemma {:induction false} AsEmittedAt(tags: seq<Located>, i: nat)
    requires i < |tags|
    ensures |AsEmitted(tags)| == |tags| && AsEmitted(tags)[i] == Emitted(Tag(tags[i].tag), tags[i].End())
  {
    if |tags| > 1 {
      AsEmittedAt(tags[1..], if i == 0 then 0 else i - 1);
    }
  }

  /** An input with a header that parses and PreviousTagSize0 after it. */
  predicate HasBody(w: bytes) {
    ParseHeader(w).Some? && |w| >= ParseHeader(w).value.dataOffset + PREV_TAG_SIZE_FIELD_SIZE
  }

  function BodyStart(w: bytes): (r: nat)
    requires HasBody(w)
    ensures r <= |w|
  {
    ParseHeader(w).value.dataOffset + PREV_TAG_SIZE_FIELD_SIZE
  }

  /** What the incremental decoder finds in the bytes the synchronous parser leaves unread. */
  function Hidden(w: bytes): seq<Emitted>
    requires HasBody(w)
  {
    var tail := SyncTail(w[BodyStart(w)..]);
    TailIsShorter(w[BodyStart(w)..]);
    TagsFrom(tail, |w| - |tail|).items
  }

  /** A whole tag stands behind the first byte that can start one, in the bytes the synchronous parser leaves unread. */
  predicate HidesTag(w: bytes)
    requires HasBody(w)
  {
    var tail := SyncTail(w[BodyStart(w)..]);
    WholeTag(tail[FindTagStart(tail)..]).Some?
  }

  lemma {:induction false} HiddenIsTag(w: bytes)
    requires HasBody(w)
    ensures Hidden(w) != [] <==> HidesTag(w)
  {
    TailIsShorter(w[BodyStart(w)..]);
    FirstOrNone(SyncTail(w[BodyStart(w)..]), |w| - |SyncTail(w[BodyStart(w)..])|);
    hide TagsFrom, SyncTail, WholeTag, FindTagStart;
  }

  lemma {:induction false} FirstOrNone(w: bytes, pos: nat)
    ensures TagsFrom(w, pos).items != [] <==> WholeTag(w[FindTagStart(w)..]).Some?
  {
    var v := w[FindTagStart(w)..];
    assert TagsFrom(w, pos) == TakeTag(v, pos + FindTagStart(w));
    hide TagsFrom, WholeTag, TagAt, FindTagStart;
  }

  /**
   On any input with a header, the decoders agree exactly when the synchronous parser meets no
   unknown tag type and the bytes it leaves unread hide no whole tag. When it meets none, the
   incremental decoder loses nothing: it finds the same tags and then the hidden ones.
   */
  lemma {:induction false} DecodersAgreeExactlyWhen(w: bytes, sync: seq<Located>)
    requires HasBody(w)
    requires sync == SyncTags(w[ParseHeader(w).value.dataOffset..], ParseHeader(w).value.dataOffset)
    ensures Reference(w).items != [] && Reference(w).items[0] == Emitted(Header(ParseHeader(w).value), BodyStart(w))
    ensures AllKnown(sync) ==> Reference(w).items[1..] == AsEmitted(sync) + Hidden(w)
    ensures Reference(w).items[1..] == AsEmitted(sync) <==> AllKnown(sync) && !HidesTag(w)
  {
    hide *;
    HiddenIsTag(w);
    ReferenceOfBody(w);
    HiddenOfBody(w);
    var v, start := w[BodyStart(w)..], BodyStart(w);
    AgreeFrom(v, start, TagsFrom(v, start).items, sync, Hidden(w));
  }

  lemma {:induction false} HiddenOfBody(w: bytes)
    requires HasBody(w)
    ensures var v, start := w[BodyStart(w)..], BodyStart(w);
            && |SyncTail(v)| <= |v|
            && Hidden(w) == TagsFrom(SyncTail(v), start + |v| - |SyncTail(v)|).items
  {
    TailIsShorter(w[BodyStart(w)..]);
    hide TagsFrom, SyncTail;
  }

  lemma {:induction false} AgreeFrom(v: bytes, pos: nat, found: seq<Emitted>, sync: seq<Located>, hidden: seq<Emitted>)
    requires found == TagsFrom(v, pos).items && sync == SyncTake(v, pos)
    requires |SyncTail(v)| <= |v| && hidden == TagsFrom(SyncTail(v), pos + |v| - |SyncTail(v)|).items
    ensures AllKnown(sync) ==> found == AsEmitted(sync) + hidden
    ensures found == AsEmitted(sync) <==> AllKnown(sync) && hidden == []
  {
    hide TagsFrom, SyncTake, SyncTail;
    if AllKnown(sync) {
      KnownTagsAgree(v, pos);
    } else {
      var i :| 0 <= i < |sync| && !sync[i].tag.tagType.Known();
      AsEmittedAt(sync, i);
      TagsFromKnown(v, pos);
    }
  }

  lemma {:induction false} ReferenceOfBody(w: bytes)
    requires HasBody(w)
    ensures var h, v, start := ParseHeader(w).value, w[BodyStart(w)..], BodyStart(w);
            && Reference(w).items == [Emitted(Header(h), start)] + TagsFrom(v, start).items
            && SyncTags(w[h.dataOffset..], h.dataOffset) == SyncTake(v, start)
  {
    hide TagsFrom, SyncTake;
    assert w[ParseHeader(w).value.dataOffset..][PREV_TAG_SIZE_FIELD_SIZE..] == w[BodyStart(w)..];
  }

  lemma {:induction false} TailIsShorter(w: bytes)
    ensures |SyncTail(w)| <= |w|
    decreases |w|
  {
    if WholeTag(w).Some? && |w[WholeTag(w).value..]| >= PREV_TAG_SIZE_FIELD_SIZE {
      TailIsShorter(w[WholeTag(w).value..][PREV_TAG_SIZE_FIELD_SIZE..]);
    }
  }

  // ---------------------------------------------------------------- joining late, and junk

  ghost predicate ReadsBack(t: FlvTag)
    requires |t.data| <= MAX_TAG_DATA_SIZE
  {
    WholeTag(TagBytes(t)) == Some(t.Size()) && TagAt(TagBytes(t)) == t
  }

  lemma {:induction false} ReadsBackExactlyWhen(t: FlvTag)
    requires t.Writable()
    ensures ReadsBack(t) <==> t.streamId == 0
  {
    hide TagBytes, WholeTag, TagAt, IsTagStart;
    TagBytesParse(t, []);
    assert TagBytes(t) + [] == TagBytes(t);
  }

  /** Once its header is out, the encoder accepts exactly the tags that a reader gets back as they were. */
  lemma {:induction false} AcceptedExactlyWhen(e: FlvEncoder, t: FlvTag)
    requires t.tagType.Known()
    ensures e.Accepts(Tag(t)) <==> e.headerWritten && |t.data| <= 0xFF_FFFF && ReadsBack(t)
  {
    hide ReadsBack;
    if |t.data| <= MAX_TAG_DATA_SIZE {
      ReadsBackExactlyWhen(t);
    }
  }

  /** A stream joined at a tag needs no header: the tags from there on are found, at their positions. */
  lemma {:induction false} JoinsMidStream(tags: seq<FlvTag>)
    requires AllWritable(tags)
    ensures Reference(WrittenTags(tags)) == Run(AsEmitted(Laid(tags, 0)), false)
  {
    hide *;
    if tags == [] {
      NothingJoined();
    } else {
      IncrementalReadsWritten(tags, 0);
      StartsWithTag(tags);
      JoinIs(WrittenTags(tags));
    }
  }

  lemma {:induction false} NothingJoined()
    ensures Reference(WrittenTags([])) == Run(AsEmitted(Laid([], 0)), false)
  {}

  lemma {:induction false} StartsWithTag(tags: seq<FlvTag>)
    requires AllWritable(tags) && tags != []
    ensures WrittenTags(tags) != [] && IsTagStart(WrittenTags(tags)[0])
  {
    WrittenFirst(tags);
    TagBytesParse(tags[0], []);
    hide TagBytes, WrittenTags, U32Bytes, WholeTag, TagAt;
    assert TagBytes(tags[0]) + [] == TagBytes(tags[0]);
  }

  lemma {:induction false} JoinIs(w: bytes)
    requires w != [] && IsTagStart(w[0])
    ensures Reference(w) == TagsFrom(w, 0)
  {
    hide TagsFrom;
  }

  /** Bytes that cannot start a tag are skipped wherever a tag is due; the tags behind them are found in their places. */
  lemma {:induction false} JunkIsSkipped(junk: bytes, tags: seq<FlvTag>, pos: nat)
    requires AllWritable(tags) && forall i :: 0 <= i < |junk| ==> !IsTagStart(junk[i])
    ensures TagsFrom(junk + WrittenTags(tags), pos) == Run(AsEmitted(Laid(tags, pos + |junk|)), false)
  {
    hide TagsFrom, WrittenTags, Laid, AsEmitted;
    FindTagStartUnique(junk, 0, |junk|);
    TagsFromSkips(junk, WrittenTags(tags), pos);
    assert junk[|junk|..] + WrittenTags(tags) == WrittenTags(tags);
    IncrementalReadsWritten(tags, pos + |junk|);
  }
}
