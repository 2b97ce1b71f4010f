/** Units in a container sample: the last one may leave out its size; some types are not allowed. */
module Isobmff {
  import opened Bytes
  import opened Collect
  import opened Leb128
  import opened Av1Obu

  datatype Options = Options(enforceShouldNot: bool, enforceReserved: bool)

  predicate Allowed(t: ObuType, options: Options) {
    match t
    case TileList => false
    case TemporalDelimiter => !options.enforceShouldNot
    case Padding => !options.enforceShouldNot
    case RedundantFrameHeader => !options.enforceShouldNot
    case Reserved(_) => !options.enforceReserved
    case _ => true
  }

  /** By their codes: tile lists never; delimiters, redundant headers and padding, or unnamed types, as asked. */
  lemma {:induction false} AllowedCodes(code: byte, options: Options)
    ensures Allowed(TypeOf(code), options) <==>
              && code != 8
              && (options.enforceShouldNot ==> code != 2 && code != 7 && code != 15)
              && (options.enforceReserved ==> 1 <= code <= 8 || code == 15)
  {}

  // ---------------------------------------------------------------- reading

  /** A unit at a position; without a size it takes all the rest. */
  function ContainerObuAt(data: bytes, p: nat): (r: Option<At<Obu>>)
    ensures r.Some? ==> p < r.value.next <= |data|
  {
    var h := HeaderAt(data, p);
    if h.None? then None
    else
      var size := if h.value.header.size.Some? then h.value.header.size.value else |data| - h.value.next;
      var end := h.value.next + size;
      if end > |data| then None else Some(At(Obu(h.value.header, data[h.value.next..end]), end))
  }

  /** The units of a sample from a position on. */
  function SampleFrom(data: bytes, p: nat, options: Options): Option<seq<Obu>>
    decreases |data| - p
  {
    if p >= |data| then Some([])
    else
      var o := ContainerObuAt(data, p);
      if o.None? || !Allowed(o.value.item.header.obuType, options) then None
      else Prepend(o.value.item, SampleFrom(data, o.value.next, options))
  }

  method ParseContainerObu(c: Cursor) returns (o: Option<Obu>)
    requires c.Valid()
    modifies c
    ensures c.Valid()
    ensures var e := ContainerObuAt(c.data, old(c.pos));
            if e.None? then o == None else o == Some(e.value.item) && c.pos == e.value.next
  {
    hide HeaderAt;
    var h := ParseObuHeader(c);
    if h.None? {
      return None;
    }
    var size := if h.value.size.Some? then h.value.size.value else |c.data| - c.pos;
    var data := c.ExtractBytes(size);
    return if data.None? then None else Some(Obu(h.value, data.value));
  }

  method ParseSample(data: bytes, options: Options) returns (r: Option<seq<Obu>>)
    requires |data| < 0x8000_0000_0000_0000
    ensures r == SampleFrom(data, 0, options)
  {
    hide ContainerObuAt, Collected, Prepend, Allowed;
    var c := new Cursor(data);
    var obus: seq<Obu> := [];
    ghost var any := Obu(ObuHeader(Frame, None, None), []);
    CollectedGrows([], any, SampleFrom(data, 0, options));
    while |data| - c.pos != 0
      invariant fresh(c) && c.data == data && c.Valid()
      invariant SampleFrom(data, 0, options) == Collected(obus, SampleFrom(data, c.pos, options))
      decreases |data| - c.pos
    {
      CollectedGrows(obus, any, None);
      var o := ParseContainerObu(c);
      if o.None? {
        return None;
      }
      if !Allowed(o.value.header.obuType, options) {
        return None;
      }
      CollectedGrows(obus, o.value, SampleFrom(data, c.pos, options));
      obus := obus + [o.value];
    }
    CollectedGrows(obus, any, None);
    return Some(obus);
  }

  /** Validation builds no units and checks in another order, but accepts the same samples. */
  method ValidateSample(data: bytes, options: Options) returns (ok: bool)
    requires |data| < 0x8000_0000_0000_0000
    ensures ok <==> SampleFrom(data, 0, options).Some?
  {
    hide HeaderAt, Allowed;
    var c := new Cursor(data);
    while c.pos < |data|
      invariant fresh(c) && c.data == data && c.Valid()
      invariant SampleFrom(data, 0, options).Some? <==> SampleFrom(data, c.pos, options).Some?
      decreases |data| - c.pos
    {
      var h := ParseObuHeader(c);
      if h.None? {
        return false;
      }
      if !Allowed(h.value.obuType, options) {
        return false;
      }
      var payloadSize := if h.value.size.Some? then h.value.size.value else |data| - c.pos;
      var next := c.pos + payloadSize;
      if next > |data| {
        return false;
      }
      c.pos := next;
    }
    return true;
  }

  // ---------------------------------------------------------------- what a sample holds

  predicate Sound(o: Obu, options: Options) {
    && Canonical(o.header.obuType) && Allowed(o.header.obuType, options)
    && (o.header.size.Some? ==> o.header.size.value == |o.data| <= MAX32)
  }

  /** Every unit read is sound, and only the last one can be without a size. */
  lemma {:induction false} SampleIsSound(data: bytes, p: nat, options: Options, i: nat)
    requires var r := SampleFrom(data, p, options); r.Some? && i < |r.value|
    ensures var r := SampleFrom(data, p, options).value;
            Sound(r[i], options) && (r[i].header.size.None? ==> i == |r| - 1)
    decreases |data| - p
  {
    hide ContainerObuAt, Sound;
    var o := ContainerObuAt(data, p).value;
    ObuIsSound(data, p, options);
    if i > 0 {
      SampleIsSound(data, o.next, options, i - 1);
    } else if o.item.header.size.None? {
      assert o.next == |data|;
    }
  }

  lemma {:induction false} ObuIsSound(data: bytes, p: nat, options: Options)
    requires var o := ContainerObuAt(data, p); o.Some? && Allowed(o.value.item.header.obuType, options)
    ensures var o := ContainerObuAt(data, p).value;
            Sound(o.item, options) && (o.item.header.size.None? ==> o.next == |data|)
  {
    ReadIsCanonical(data, p);
    SizeIsSmall(data, p);
    hide HeaderAt, Canonical, Allowed;
  }

  lemma {:induction false} SizeIsSmall(data: bytes, p: nat)
    requires HeaderAt(data, p).Some?
    ensures var s := HeaderAt(data, p).value.header.size; s.Some? ==> s.value <= MAX32
  {
    hide Leb128At, TypeOf;
  }

  // ---------------------------------------------------------------- writing

  function Sized(o: Obu): Obu { o.(header := o.header.(size := Some(|o.data|))) }

  function SizedObus(obus: seq<Obu>): (r: seq<Obu>)
    ensures |r| == |obus|
  {
    if obus == [] then [] else [Sized(obus[0])] + SizedObus(obus[1..])
  }

  /** A unit with its size. */
  function RawObuBytes(o: Obu): bytes
    requires Fits(o.header)
  {
    HeaderBytes(Sized(o).header) + o.data
  }

  predicate AllFit(obus: seq<Obu>) { forall i :: 0 <= i < |obus| ==> Fits(obus[i].header) }

  function SampleBytes(obus: seq<Obu>): bytes
    requires AllFit(obus)
  {
    if obus == [] then [] else RawObuBytes(obus[0]) + SampleBytes(obus[1..])
  }

  method WriteRawObu(w: Output, o: Obu) returns (written: Option<nat>)
    modifies w
    ensures written.Some? <==> Fits(o.header)
    ensures Fits(o.header) ==> w.out == old(w.out) + RawObuBytes(o) && written == Some(|RawObuBytes(o)|)
  {
    hide HeaderBytes;
    var n := Mux(Sized(o).header, w);
    if n.None? {
      return None;
    }
    w.WriteAll(o.data);
    return Some(n.value + |o.data|);
  }

  method ObuEncodedSize(o: Obu) returns (size: nat)
    ensures Fits(o.header) ==> size == |RawObuBytes(o)|
  {
    hide Leb;
    var base := if o.header.extension.Some? then 2 else 1;
    var sizeField := Leb128Size(|o.data|);
    return base + sizeField + |o.data|;
  }

  // ---------------------------------------------------------------- round trip

  /** What a unit must be to come back from a sample. */
  predicate Survives(o: Obu, options: Options) {
    Canonical(o.header.obuType) && Allowed(o.header.obuType, options) && |o.data| <= MAX32
  }

  lemma {:induction false} RawObuRoundTrip(before: bytes, o: Obu, after: bytes)
    requires Fits(o.header) && Canonical(o.header.obuType) && |o.data| <= MAX32
    ensures ContainerObuAt(before + RawObuBytes(o) + after, |before|) ==
            Some(At(Sized(o), |before| + |RawObuBytes(o)|))
  {
    hide HeaderAt, HeaderBytes, Canonical;
    var h := Sized(o).header;
    var s := before + RawObuBytes(o) + after;
    assert s == before + HeaderBytes(h) + (o.data + after);
    HeaderRoundTripExactlyWhen(before, h, o.data + after);
    var q := |before| + |HeaderBytes(h)|;
    assert s[q..q + |o.data|] == o.data;
  }

  lemma {:induction false} SampleReads(before: bytes, obus: seq<Obu>, options: Options)
    requires AllFit(obus) && forall i :: 0 <= i < |obus| ==> Survives(obus[i], options)
    ensures SampleFrom(before + SampleBytes(obus), |before|, options) == Some(SizedObus(obus))
    decreases |obus|
  {
    hide ContainerObuAt, RawObuBytes, Canonical, Allowed, Fits;
    if obus != [] {
      var o, rest := obus[0], obus[1..];
      assert Survives(o, options);
      var b, c := RawObuBytes(o), SampleBytes(rest);
      RawObuRoundTrip(before, o, c);
      assert before + SampleBytes(obus) == before + b + c;
      SampleReads(before + b, rest, options);
      assert |before + b + c| > |before|;
    } else {
      assert before + [] == before;
    }
  }

  /** Written units come back, with their sizes, exactly when each is canonical, allowed, and of a 32-bit length. */
  lemma {:induction false} SampleRoundTripExactlyWhen(obus: seq<Obu>, options: Options)
    requires AllFit(obus)
    ensures SampleFrom(SampleBytes(obus), 0, options) == Some(SizedObus(obus))
            <==> forall i :: 0 <= i < |obus| ==> Survives(obus[i], options)
  {
    hide AllFit, SampleBytes, SampleFrom, SizedObus, Survives;
    if forall i :: 0 <= i < |obus| ==> Survives(obus[i], options) {
      SampleReads([], obus, options);
      assert [] + SampleBytes(obus) == SampleBytes(obus);
    }
    if SampleFrom(SampleBytes(obus), 0, options) == Some(SizedObus(obus)) {
      forall i | 0 <= i < |obus| ensures Survives(obus[i], options) {
        SampleIsSound(SampleBytes(obus), 0, options, i);
        SizedAt(obus, i);
        SoundSurvives(obus[i], options);
      }
    }
  }

  lemma {:induction false} SizedAt(obus: seq<Obu>, i: nat)
    requires i < |obus|
    ensures SizedObus(obus)[i] == Sized(obus[i])
  {
    if i > 0 {
      SizedAt(obus[1..], i - 1);
    }
  }

  lemma {:induction false} SoundSurvives(o: Obu, options: Options)
    requires Sound(Sized(o), options)
    ensures Survives(o, options)
  {}

  /** A unit without a size takes all that follows its header. */
  lemma {:induction false} UnsizedTakesTheRest(before: bytes, h: ObuHeader, rest: bytes)
    requires Fits(h) && Canonical(h.obuType) && h.size.None?
    ensures ContainerObuAt(before + HeaderBytes(h) + rest, |before|) ==
            Some(At(Obu(h, rest), |before| + |HeaderBytes(h)| + |rest|))
  {
    hide HeaderAt, HeaderBytes, Canonical, Fits;
    HeaderRoundTripExactlyWhen(before, h, rest);
    var s, p := before + HeaderBytes(h) + rest, |before| + |HeaderBytes(h)|;
    assert s[p..|s|] == rest;
  }
}
