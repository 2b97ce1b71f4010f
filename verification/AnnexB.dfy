/** The length-delimited bitstream format: Annex B of the AV1 specification. */
module AnnexB {
  import opened Bytes
  import opened Collect
  import opened Leb128
  import opened Av1Obu

  datatype FrameUnit = FrameUnit(obus: seq<Obu>)
  datatype TemporalUnit = TemporalUnit(frameUnits: seq<FrameUnit>)

  // ---------------------------------------------------------------- reading, as functions

  /** One unit at a position: its length, its header, and the rest of its length as data. */
  function ObuAt(data: bytes, p: nat): (r: Option<At<Obu>>)
    ensures r.Some? ==> p < r.value.next <= |data|
  {
    var n := Leb128At(data, p);
    if n.None? then None
    else
      var h := HeaderAt(data, n.value.next);
      if h.None? then None else PayloadAt(data, h.value, n.value.value, h.value.next - n.value.next)
  }

  /** The subtraction is a 64-bit one. */
  function PayloadAt(data: bytes, h: ParsedHeader, length: nat, headerBytes: nat): (r: Option<At<Obu>>)
    ensures r.Some? ==> h.next <= r.value.next <= |data|
  {
    var size := (length - headerBytes) % TWO64;
    if h.header.size.Some? && h.header.size.value != size then None
    else if h.next + size > |data| then None
    else Some(At(Obu(h.header, data[h.next..h.next + size]), h.next + size))
  }

  /** The units from a position to exactly an end. */
  function ObusFrom(data: bytes, p: nat, end: nat): (r: Option<seq<Obu>>)
    ensures r.Some? && p <= |data| ==> p <= end <= |data|
    decreases |data| - p
  {
    if p >= end then if p == end then Some([]) else None
    else
      var o := ObuAt(data, p);
      if o.None? then None else Prepend(o.value.item, ObusFrom(data, o.value.next, end))
  }

  function FrameAt(data: bytes, p: nat): (r: Option<At<FrameUnit>>)
    ensures r.Some? ==> p < r.value.next <= |data|
  {
    var n := Leb128At(data, p);
    if n.None? then None
    else
      var end := n.value.next + n.value.value;
      var obus := ObusFrom(data, n.value.next, end);
      if obus.None? then None else Some(At(FrameUnit(obus.value), end))
  }

  function FramesFrom(data: bytes, p: nat, end: nat): (r: Option<seq<FrameUnit>>)
    ensures r.Some? && p <= |data| ==> p <= end <= |data|
    decreases |data| - p
  {
    if p >= end then if p == end then Some([]) else None
    else
      var f := FrameAt(data, p);
      if f.None? then None else Prepend(f.value.item, FramesFrom(data, f.value.next, end))
  }

  function UnitAt(data: bytes, p: nat): (r: Option<At<TemporalUnit>>)
    ensures r.Some? ==> p < r.value.next <= |data|
  {
    var n := Leb128At(data, p);
    if n.None? then None
    else
      var end := n.value.next + n.value.value;
      var frames := FramesFrom(data, n.value.next, end);
      if frames.None? then None else Some(At(TemporalUnit(frames.value), end))
  }

  /** All temporal units from a position to the end of the input. */
  function UnitsFrom(data: bytes, p: nat): Option<seq<TemporalUnit>>
    decreases |data| - p
  {
    if p >= |data| then Some([])
    else
      var u := UnitAt(data, p);
      if u.None? then None else Prepend(u.value.item, UnitsFrom(data, u.value.next))
  }

  // ---------------------------------------------------------------- reading, with a cursor

  method ParseObu(c: Cursor) returns (o: Option<Obu>)
    requires c.Valid()
    modifies c
    ensures c.Valid()
    ensures var e := ObuAt(c.data, old(c.pos));
            if e.None? then o == None else o == Some(e.value.item) && c.pos == e.value.next
  {
    hide Leb128At, HeaderAt;
    var length := ReadLeb128FromCursor(c);
    if length.None? {
      return None;
    }
    var start := c.pos;
    var h := ParseObuHeader(c);
    if h.None? {
      return None;
    }
    var payloadSize := (length.value - (c.pos - start)) % TWO64;
    if h.value.size.Some? && h.value.size.value != payloadSize {
      return None;
    }
    var data := c.ExtractBytes(payloadSize);
    if data.None? {
      return None;
    }
    return Some(Obu(h.value, data.value));
  }

  method ParseFrameUnit(c: Cursor) returns (f: Option<FrameUnit>)
    requires c.Valid()
    modifies c
    ensures c.Valid()
    ensures var e := FrameAt(c.data, old(c.pos));
            if e.None? then f == None else f == Some(e.value.item) && c.pos == e.value.next
  {
    hide Leb128At, ObuAt, Collected, Prepend;
    var size := ReadLeb128FromCursor(c);
    if size.None? {
      return None;
    }
    var start := c.pos;
    var obus: seq<Obu> := [];
    ghost var end := start + size.value;
    ghost var all := ObusFrom(c.data, start, end);
    CollectedGrows([], Obu(ObuHeader(Frame, None, None), []), all);
    while c.pos - start < size.value
      invariant c.Valid() && start <= c.pos
      invariant all == Collected(obus, ObusFrom(c.data, c.pos, end))
      decreases |c.data| - c.pos
    {
      ghost var p := c.pos;
      var o := ParseObu(c);
      if o.None? {
        CollectedGrows(obus, Obu(ObuHeader(Frame, None, None), []), None);
        return None;
      }
      CollectedGrows(obus, o.value, ObusFrom(c.data, c.pos, end));
      obus := obus + [o.value];
    }
    CollectedGrows(obus, Obu(ObuHeader(Frame, None, None), []), None);
    return if c.pos - start == size.value then Some(FrameUnit(obus)) else None;
  }

  method ParseTemporalUnit(c: Cursor) returns (u: Option<TemporalUnit>)
    requires c.Valid()
    modifies c
    ensures c.Valid()
    ensures var e := UnitAt(c.data, old(c.pos));
            if e.None? then u == None else u == Some(e.value.item) && c.pos == e.value.next
  {
    hide Leb128At, FrameAt, Collected, Prepend;
    var size := ReadLeb128FromCursor(c);
    if size.None? {
      return None;
    }
    var start := c.pos;
    var frames: seq<FrameUnit> := [];
    ghost var end := start + size.value;
    ghost var all := FramesFrom(c.data, start, end);
    CollectedGrows([], FrameUnit([]), all);
    while c.pos - start < size.value
      invariant c.Valid() && start <= c.pos
      invariant all == Collected(frames, FramesFrom(c.data, c.pos, end))
      decreases |c.data| - c.pos
    {
      var f := ParseFrameUnit(c);
      if f.None? {
        CollectedGrows(frames, FrameUnit([]), None);
        return None;
      }
      CollectedGrows(frames, f.value, FramesFrom(c.data, c.pos, end));
      frames := frames + [f.value];
    }
    CollectedGrows(frames, FrameUnit([]), None);
    return if c.pos - start == size.value then Some(TemporalUnit(frames)) else None;
  }

  /** The iterator, taken to the end or to its first error. */
  method ParseAnnexB(data: bytes) returns (units: Option<seq<TemporalUnit>>)
    requires |data| < 0x8000_0000_0000_0000
    ensures units == UnitsFrom(data, 0)
  {
    hide UnitAt, Collected, Prepend;
    var c := new Cursor(data);
    var done: seq<TemporalUnit> := [];
    CollectedGrows([], TemporalUnit([]), UnitsFrom(data, 0));
    while |data| - c.pos > 0
      invariant fresh(c) && c.data == data && c.Valid()
      invariant UnitsFrom(data, 0) == Collected(done, UnitsFrom(data, c.pos))
      decreases |data| - c.pos
    {
      var u := ParseTemporalUnit(c);
      if u.None? {
        CollectedGrows(done, TemporalUnit([]), None);
        return None;
      }
      CollectedGrows(done, u.value, UnitsFrom(data, c.pos));
      done := done + [u.value];
    }
    CollectedGrows(done, TemporalUnit([]), None);
    return Some(done);
  }

  // ---------------------------------------------------------------- writing, as functions

  function WithoutSize(h: ObuHeader): ObuHeader { h.(size := None) }

  function Erased(o: Obu): Obu { o.(header := WithoutSize(o.header)) }

  function ObuLength(o: Obu): nat { |o.data| + if o.header.extension.Some? then 2 else 1 }

  function ObuBytes(o: Obu): bytes
    requires Fits(o.header)
  {
    Leb(ObuLength(o)) + HeaderBytes(WithoutSize(o.header)) + o.data
  }

  predicate FrameFits(f: FrameUnit) { forall i :: 0 <= i < |f.obus| ==> Fits(f.obus[i].header) }

  function ObusBytes(f: FrameUnit): bytes
    requires FrameFits(f)
    decreases |f.obus|
  {
    if f.obus == [] then [] else ObuBytes(f.obus[0]) + ObusBytes(FrameUnit(f.obus[1..]))
  }

  function FrameBytes(f: FrameUnit): bytes
    requires FrameFits(f)
  {
    Leb(|ObusBytes(f)|) + ObusBytes(f)
  }

  predicate UnitFits(u: TemporalUnit) { forall i :: 0 <= i < |u.frameUnits| ==> FrameFits(u.frameUnits[i]) }

  function FramesBytes(u: TemporalUnit): bytes
    requires UnitFits(u)
    decreases |u.frameUnits|
  {
    if u.frameUnits == [] then [] else FrameBytes(u.frameUnits[0]) + FramesBytes(TemporalUnit(u.frameUnits[1..]))
  }

  function UnitBytes(u: TemporalUnit): bytes
    requires UnitFits(u)
  {
    Leb(|FramesBytes(u)|) + FramesBytes(u)
  }

  function FirstObus(f: FrameUnit, i: nat): FrameUnit
    requires i <= |f.obus|
  {
    FrameUnit(f.obus[..i])
  }

  function FirstFrames(u: TemporalUnit, i: nat): TemporalUnit
    requires i <= |u.frameUnits|
  {
    TemporalUnit(u.frameUnits[..i])
  }

  lemma {:induction false} ObusBytesSnoc(f: FrameUnit, o: Obu)
    requires FrameFits(f) && Fits(o.header)
    ensures FrameFits(FrameUnit(f.obus + [o])) && ObusBytes(FrameUnit(f.obus + [o])) == ObusBytes(f) + ObuBytes(o)
    decreases |f.obus|
  {
    hide ObuBytes, Fits;
    var g := FrameUnit(f.obus + [o]);
    if f.obus == [] {
      assert g.obus[1..] == [];
    } else {
      assert g.obus[1..] == f.obus[1..] + [o];
      ObusBytesSnoc(FrameUnit(f.obus[1..]), o);
    }
  }

  lemma {:induction false} FramesBytesSnoc(u: TemporalUnit, f: FrameUnit)
    requires UnitFits(u) && FrameFits(f)
    ensures var v := TemporalUnit(u.frameUnits + [f]); UnitFits(v) && FramesBytes(v) == FramesBytes(u) + FrameBytes(f)
    decreases |u.frameUnits|
  {
    hide FrameBytes, FrameFits;
    var v := TemporalUnit(u.frameUnits + [f]);
    if u.frameUnits == [] {
      assert v.frameUnits[1..] == [];
    } else {
      assert v.frameUnits[1..] == u.frameUnits[1..] + [f];
      FramesBytesSnoc(TemporalUnit(u.frameUnits[1..]), f);
    }
  }

  lemma {:induction false} NextObu(f: FrameUnit, i: nat)
    requires i < |f.obus|
    ensures FrameFits(FirstObus(f, i + 1)) <==> FrameFits(FirstObus(f, i)) && Fits(f.obus[i].header)
    ensures FrameFits(FirstObus(f, i + 1)) ==>
              ObusBytes(FirstObus(f, i + 1)) == ObusBytes(FirstObus(f, i)) + ObuBytes(f.obus[i])
    ensures FrameFits(f) ==> FrameFits(FirstObus(f, i + 1))
  {
    hide Fits, ObusBytes, ObuBytes;
    assert f.obus[..i + 1] == f.obus[..i] + [f.obus[i]];
    assert forall j :: 0 <= j <= i ==> f.obus[..i + 1][j] == f.obus[j];
    assert forall j :: 0 <= j < i ==> f.obus[..i][j] == f.obus[..i + 1][j];
    if FrameFits(FirstObus(f, i)) && Fits(f.obus[i].header) {
      ObusBytesSnoc(FirstObus(f, i), f.obus[i]);
    }
  }

  lemma {:induction false} NextFrame(u: TemporalUnit, i: nat)
    requires i < |u.frameUnits|
    ensures UnitFits(FirstFrames(u, i + 1)) <==> UnitFits(FirstFrames(u, i)) && FrameFits(u.frameUnits[i])
    ensures UnitFits(FirstFrames(u, i + 1)) ==>
              FramesBytes(FirstFrames(u, i + 1)) == FramesBytes(FirstFrames(u, i)) + FrameBytes(u.frameUnits[i])
    ensures UnitFits(u) ==> UnitFits(FirstFrames(u, i + 1))
  {
    hide FrameFits, FramesBytes, FrameBytes;
    assert u.frameUnits[..i + 1] == u.frameUnits[..i] + [u.frameUnits[i]];
    assert forall j :: 0 <= j <= i ==> u.frameUnits[..i + 1][j] == u.frameUnits[j];
    assert forall j :: 0 <= j < i ==> u.frameUnits[..i][j] == u.frameUnits[..i + 1][j];
    if UnitFits(FirstFrames(u, i)) && FrameFits(u.frameUnits[i]) {
      FramesBytesSnoc(FirstFrames(u, i), u.frameUnits[i]);
    }
  }

  lemma {:induction false} NoUnits(f: FrameUnit, u: TemporalUnit)
    ensures FrameFits(FirstObus(f, 0)) && ObusBytes(FirstObus(f, 0)) == []
    ensures UnitFits(FirstFrames(u, 0)) && FramesBytes(FirstFrames(u, 0)) == []
    ensures FirstObus(f, |f.obus|) == f && FirstFrames(u, |u.frameUnits|) == u
  {
    assert f.obus[..|f.obus|] == f.obus && u.frameUnits[..|u.frameUnits|] == u.frameUnits;
  }

  // ---------------------------------------------------------------- writing

  /** What the header and the data of a unit take up, and its length in front. */
  method ComputeObuSize(o: Obu) returns (size: nat)
    ensures Fits(o.header) ==> size == |ObuBytes(o)|
  {
    hide Leb;
    var header := HeaderSize(WithoutSize(o.header));
    var prefix := Leb128Size(header + |o.data|);
    return prefix + header + |o.data|;
  }

  method ComputeFrameUnitPayloadSize(f: FrameUnit) returns (size: nat)
    ensures FrameFits(f) ==> size == |ObusBytes(f)|
  {
    hide FrameFits, ObusBytes, FirstObus, ObuBytes, Fits;
    size := 0;
    NoUnits(f, TemporalUnit([]));
    for i := 0 to |f.obus|
      invariant FrameFits(FirstObus(f, i)) ==> size == |ObusBytes(FirstObus(f, i))|
    {
      NextObu(f, i);
      var n := ComputeObuSize(f.obus[i]);
      size := size + n;
    }
  }

  method ComputeFrameUnitSize(f: FrameUnit) returns (size: nat)
    ensures FrameFits(f) ==> size == |FrameBytes(f)|
  {
    hide FrameFits, ObusBytes;
    var payload := ComputeFrameUnitPayloadSize(f);
    var prefix := Leb128Size(payload);
    return prefix + payload;
  }

  method WriteAnnexBObu(w: Output, o: Obu) returns (written: Option<nat>)
    modifies w
    ensures written.Some? <==> Fits(o.header)
    ensures Fits(o.header) ==> w.out == old(w.out) + ObuBytes(o) && written == Some(|ObuBytes(o)|)
  {
    hide Leb;
    var h := WithoutSize(o.header);
    var headerSize := HeaderSize(h);
    var total := WriteLeb128(w, headerSize + |o.data|);
    var n := Mux(h, w);
    if n.None? {
      return None;
    }
    w.WriteAll(o.data);
    ghost var was := old(w.out);
    assert ObuLength(o) == headerSize + |o.data|;
    assert was + Leb(ObuLength(o)) + HeaderBytes(h) + o.data == was + ObuBytes(o);
    return Some(total + n.value + |o.data|);
  }

  method WriteFrameUnit(w: Output, f: FrameUnit) returns (written: Option<nat>)
    modifies w
    ensures written.Some? <==> FrameFits(f)
    ensures FrameFits(f) ==> w.out == old(w.out) + FrameBytes(f) && written == Some(|FrameBytes(f)|)
  {
    hide FrameFits, ObusBytes, FirstObus, Leb, ObuBytes, Fits;
    var payload := ComputeFrameUnitPayloadSize(f);
    var total := WriteLeb128(w, payload);
    NoUnits(f, TemporalUnit([]));
    for i := 0 to |f.obus|
      invariant FrameFits(FirstObus(f, i))
      invariant w.out == old(w.out) + Leb(payload) + ObusBytes(FirstObus(f, i))
      invariant total == |Leb(payload) + ObusBytes(FirstObus(f, i))|
    {
      NextObu(f, i);
      var n := WriteAnnexBObu(w, f.obus[i]);
      if n.None? {
        return None;
      }
      total := total + n.value;
    }
    return Some(total);
  }

  method WriteTemporalUnit(w: Output, u: TemporalUnit) returns (written: Option<nat>)
    modifies w
    ensures written.Some? <==> UnitFits(u)
    ensures UnitFits(u) ==> w.out == old(w.out) + UnitBytes(u) && written == Some(|UnitBytes(u)|)
  {
    hide UnitFits, FramesBytes, FirstFrames, Leb, FrameBytes, FrameFits;
    var payload := ComputeTemporalUnitPayloadSize(u);
    var total := WriteLeb128(w, payload);
    NoUnits(FrameUnit([]), u);
    for i := 0 to |u.frameUnits|
      invariant UnitFits(FirstFrames(u, i))
      invariant w.out == old(w.out) + Leb(payload) + FramesBytes(FirstFrames(u, i))
      invariant total == |Leb(payload) + FramesBytes(FirstFrames(u, i))|
    {
      NextFrame(u, i);
      var n := WriteFrameUnit(w, u.frameUnits[i]);
      if n.None? {
        return None;
      }
      total := total + n.value;
    }
    return Some(total);
  }

  method ComputeTemporalUnitPayloadSize(u: TemporalUnit) returns (size: nat)
    ensures UnitFits(u) ==> size == |FramesBytes(u)|
  {
    hide UnitFits, FramesBytes, FirstFrames, FrameBytes, FrameFits;
    size := 0;
    NoUnits(FrameUnit([]), u);
    for i := 0 to |u.frameUnits|
      invariant UnitFits(FirstFrames(u, i)) ==> size == |FramesBytes(FirstFrames(u, i))|
    {
      NextFrame(u, i);
      var n := ComputeFrameUnitSize(u.frameUnits[i]);
      size := size + n;
    }
  }

  // ---------------------------------------------------------------- tiling

  /** The length in front of a unit, and where it says the unit ends. */
  predicate Declares(data: bytes, p: nat, end: nat) {
    var n := Leb128At(data, p);
    n.Some? && n.value.next + n.value.value == end <= |data|
  }

  /** The unit is its declared length: a header, and everything after it. */
  predicate ObuTile(data: bytes, p: nat, o: Obu, end: nat) {
    && Declares(data, p, end)
    && var h := HeaderAt(data, Leb128At(data, p).value.next);
       && h.Some? && h.value.next <= end
       && o == Obu(h.value.header, data[h.value.next..end])
       && (o.header.size.Some? ==> o.header.size.value == |o.data|)
  }

  function DeclaredEnd(data: bytes, p: nat): nat {
    var n := Leb128At(data, p);
    if n.None? then p else n.value.next + n.value.value
  }

  /** Units end to end, from a position to an end; each begins where the one before says it ends. */
  predicate ObusTile(data: bytes, p: nat, obus: seq<Obu>, end: nat)
    decreases |obus|
  {
    if obus == [] then p == end
    else
      && p < end && ObuTile(data, p, obus[0], DeclaredEnd(data, p))
      && ObusTile(data, DeclaredEnd(data, p), obus[1..], end)
  }

  predicate FrameTile(data: bytes, p: nat, f: FrameUnit, end: nat) {
    Declares(data, p, end) && ObusTile(data, Leb128At(data, p).value.next, f.obus, end)
  }

  predicate FramesTile(data: bytes, p: nat, frames: seq<FrameUnit>, end: nat)
    decreases |frames|
  {
    if frames == [] then p == end
    else
      && p < end && FrameTile(data, p, frames[0], DeclaredEnd(data, p))
      && FramesTile(data, DeclaredEnd(data, p), frames[1..], end)
  }

  predicate UnitTile(data: bytes, p: nat, u: TemporalUnit, end: nat) {
    Declares(data, p, end) && FramesTile(data, Leb128At(data, p).value.next, u.frameUnits, end)
  }

  /** A length shorter than the header wraps around to one no input is long enough for. */
  lemma {:induction false} ObuIsTile(data: bytes, p: nat, o: Obu, end: nat)
    requires |data| < 0x8000_0000_0000_0000
    ensures ObuAt(data, p) == Some(At(o, end)) <==> ObuTile(data, p, o, end)
    ensures ObuAt(data, p).Some? ==> ObuAt(data, p).value.next == DeclaredEnd(data, p)
  {
    hide Leb128At, HeaderAt;
    var n := Leb128At(data, p);
    if n.Some? {
      var h := HeaderAt(data, n.value.next);
      if h.Some? {
        PayloadIsRest(data, h.value, n.value.value, h.value.next - n.value.next);
      }
    }
  }

  lemma {:induction false} PayloadIsRest(data: bytes, h: ParsedHeader, length: nat, headerBytes: nat)
    requires length <= MAX32 && headerBytes <= h.next <= |data| < 0x8000_0000_0000_0000
    ensures var end := h.next - headerBytes + length;
            PayloadAt(data, h, length, headerBytes) ==
            if h.next <= end <= |data| && (h.header.size.Some? ==> h.header.size.value == end - h.next)
            then Some(At(Obu(h.header, data[h.next..end]), end)) else None
  {
    if length >= headerBytes {
      assert (length - headerBytes) % TWO64 == length - headerBytes;
    } else {
      assert (length - headerBytes) % TWO64 == TWO64 + length - headerBytes;
    }
  }

  lemma {:induction false} ObusAreTiles(data: bytes, p: nat, obus: seq<Obu>, end: nat)
    requires |data| < 0x8000_0000_0000_0000
    ensures ObusFrom(data, p, end) == Some(obus) <==> ObusTile(data, p, obus, end)
    decreases |data| - p, |obus|
  {
    hide ObuAt, ObuTile, DeclaredEnd;
    if p < end && ObuAt(data, p).Some? {
      var o := ObuAt(data, p).value;
      ObuIsTile(data, p, o.item, o.next);
      if obus != [] {
        ObuIsTile(data, p, obus[0], o.next);
        ObusAreTiles(data, o.next, obus[1..], end);
        assert obus == [obus[0]] + obus[1..];
      }
    } else if p < end && obus != [] {
      ObuIsTile(data, p, obus[0], DeclaredEnd(data, p));
    }
  }

  lemma {:induction false} FrameIsTile(data: bytes, p: nat, f: FrameUnit, end: nat)
    requires |data| < 0x8000_0000_0000_0000
    ensures FrameAt(data, p) == Some(At(f, end)) <==> FrameTile(data, p, f, end)
    ensures FrameAt(data, p).Some? ==> FrameAt(data, p).value.next == DeclaredEnd(data, p)
  {
    hide Leb128At, ObusFrom, ObusTile;
    var n := Leb128At(data, p);
    if n.Some? {
      ObusAreTiles(data, n.value.next, f.obus, end);
    }
  }

  lemma {:induction false} FramesAreTiles(data: bytes, p: nat, frames: seq<FrameUnit>, end: nat)
    requires |data| < 0x8000_0000_0000_0000
    ensures FramesFrom(data, p, end) == Some(frames) <==> FramesTile(data, p, frames, end)
    decreases |data| - p, |frames|
  {
    hide FrameAt, FrameTile, DeclaredEnd;
    if p < end && FrameAt(data, p).Some? {
      var f := FrameAt(data, p).value;
      FrameIsTile(data, p, f.item, f.next);
      if frames != [] {
        FrameIsTile(data, p, frames[0], f.next);
        FramesAreTiles(data, f.next, frames[1..], end);
        assert frames == [frames[0]] + frames[1..];
      }
    } else if p < end && frames != [] {
      FrameIsTile(data, p, frames[0], DeclaredEnd(data, p));
    }
  }

  /** A temporal unit is read exactly when the declared lengths tile the input at all three levels. */
  lemma {:induction false} ReadsExactlyTheTilings(data: bytes, p: nat, u: TemporalUnit, end: nat)
    requires |data| < 0x8000_0000_0000_0000
    ensures UnitAt(data, p) == Some(At(u, end)) <==> UnitTile(data, p, u, end)
  {
    hide Leb128At, FramesFrom, FramesTile;
    var n := Leb128At(data, p);
    if n.Some? {
      FramesAreTiles(data, n.value.next, u.frameUnits, end);
    }
  }

  // ---------------------------------------------------------------- round trip

  predicate CanonicalObu(o: Obu) { Canonical(o.header.obuType) }

  predicate CanonicalFrame(f: FrameUnit) { forall i :: 0 <= i < |f.obus| ==> CanonicalObu(f.obus[i]) }

  predicate CanonicalUnit(u: TemporalUnit) { forall i :: 0 <= i < |u.frameUnits| ==> CanonicalFrame(u.frameUnits[i]) }

  function ErasedObus(obus: seq<Obu>): (r: seq<Obu>)
    ensures |r| == |obus|
  {
    if obus == [] then [] else [Erased(obus[0])] + ErasedObus(obus[1..])
  }

  function ErasedFrames(frames: seq<FrameUnit>): (r: seq<FrameUnit>)
    ensures |r| == |frames|
  {
    if frames == [] then [] else [FrameUnit(ErasedObus(frames[0].obus))] + ErasedFrames(frames[1..])
  }

  function ErasedUnit(u: TemporalUnit): TemporalUnit { TemporalUnit(ErasedFrames(u.frameUnits)) }

  lemma {:induction false} ObuRoundTrip(before: bytes, o: Obu, after: bytes)
    requires Fits(o.header) && CanonicalObu(o) && ObuLength(o) <= MAX32
    ensures ObuAt(before + ObuBytes(o) + after, |before|) == Some(At(Erased(o), |before| + |ObuBytes(o)|))
  {
    hide *;
    var h, n := WithoutSize(o.header), ObuLength(o);
    NoSizeFits(o);
    var hb := HeaderBytes(h);
    HeaderWidth(h);
    ObuParts(before, o, after);
    LebRoundTripExactlyWhen(before, n, hb + o.data + after);
    var p := before + Leb(n);
    HeaderRoundTripExactlyWhen(p, h, o.data + after);
    PayloadReads(before + ObuBytes(o) + after, h, |p| + |hb|, n, |hb|, o.data);
    ObuAtIs(before + ObuBytes(o) + after, |before|, n, |p|, ParsedHeader(h, |p| + |hb|));
  }

  lemma {:induction false} NoSizeFits(o: Obu)
    requires Fits(o.header) && CanonicalObu(o)
    ensures var h := WithoutSize(o.header);
            && Fits(h) && h.size.None? && Canonical(h.obuType) && Erased(o) == Obu(h, o.data)
            && ObuLength(o) == |o.data| + if h.extension.Some? then 2 else 1
  {
    hide Canonical, CodeOf;
  }

  lemma {:induction false} ObuParts(before: bytes, o: Obu, after: bytes)
    requires Fits(o.header) && Fits(WithoutSize(o.header))
    ensures var l, hb := Leb(ObuLength(o)), HeaderBytes(WithoutSize(o.header));
            && before + ObuBytes(o) + after == before + l + (hb + o.data + after)
            && before + ObuBytes(o) + after == before + l + hb + (o.data + after)
            && |ObuBytes(o)| == |l| + |hb| + |o.data|
            && (before + ObuBytes(o) + after)[|before| + |l| + |hb|..|before| + |l| + |hb| + |o.data|] == o.data
  {
    hide Leb, HeaderBytes, Fits;
  }

  lemma {:induction false} PayloadReads(s: bytes, h: ObuHeader, p: nat, length: nat, headerBytes: nat, data: bytes)
    requires h.size.None? && length == headerBytes + |data| <= MAX32 && p + |data| <= |s| && s[p..p + |data|] == data
    ensures PayloadAt(s, ParsedHeader(h, p), length, headerBytes) == Some(At(Obu(h, data), p + |data|))
  {
    assert (length - headerBytes) % TWO64 == |data|;
  }

  lemma {:induction false} ObuAtIs(s: bytes, p: nat, n: nat, q: nat, h: ParsedHeader)
    requires Leb128At(s, p) == Some(Number(n, q)) && HeaderAt(s, q) == Some(h)
    ensures q <= h.next && ObuAt(s, p) == PayloadAt(s, h, n, h.next - q)
  {
    hide Leb128At, HeaderAt, PayloadAt;
  }

  lemma {:induction false} HeaderWidth(h: ObuHeader)
    requires Fits(h) && h.size.None?
    ensures |HeaderBytes(h)| == if h.extension.Some? then 2 else 1
  {}

  lemma {:induction false} ObusRoundTrip(before: bytes, f: FrameUnit, after: bytes)
    requires FrameFits(f) && CanonicalFrame(f) && |ObusBytes(f)| <= MAX32
    ensures ObusFrom(before + ObusBytes(f) + after, |before|, |before| + |ObusBytes(f)|) == Some(ErasedObus(f.obus))
    decreases |f.obus|
  {
    hide ObuAt, ObuBytes, Erased, CanonicalObu, Fits;
    if f.obus != [] {
      var o, rest := f.obus[0], FrameUnit(f.obus[1..]);
      var b, c := ObuBytes(o), ObusBytes(rest);
      ObuIsWide(o);
      assert before + ObusBytes(f) + after == before + b + (c + after);
      ObuRoundTrip(before, o, c + after);
      assert before + b + (c + after) == (before + b) + c + after;
      ObusRoundTrip(before + b, rest, after);
    }
  }

  lemma {:induction false} ObuIsWide(o: Obu)
    requires Fits(o.header)
    ensures |ObuBytes(o)| > ObuLength(o)
  {
    hide Leb;
  }

  lemma {:induction false} FrameRoundTrip(before: bytes, f: FrameUnit, after: bytes)
    requires FrameFits(f) && CanonicalFrame(f) && |ObusBytes(f)| <= MAX32
    ensures FrameAt(before + FrameBytes(f) + after, |before|) ==
            Some(At(FrameUnit(ErasedObus(f.obus)), |before| + |FrameBytes(f)|))
  {
    hide Leb, Leb128At, ObusFrom, ObusBytes, FrameFits, CanonicalFrame;
    var b := ObusBytes(f);
    assert before + FrameBytes(f) + after == before + Leb(|b|) + (b + after);
    LebRoundTripExactlyWhen(before, |b|, b + after);
    assert before + Leb(|b|) + (b + after) == (before + Leb(|b|)) + b + after;
    ObusRoundTrip(before + Leb(|b|), f, after);
  }

  lemma {:induction false} FramesRoundTrip(before: bytes, u: TemporalUnit, after: bytes)
    requires UnitFits(u) && CanonicalUnit(u) && |FramesBytes(u)| <= MAX32
    ensures FramesFrom(before + FramesBytes(u) + after, |before|, |before| + |FramesBytes(u)|) ==
            Some(ErasedFrames(u.frameUnits))
    decreases |u.frameUnits|
  {
    hide FrameAt, FrameBytes, CanonicalFrame, FrameFits;
    if u.frameUnits != [] {
      var f, rest := u.frameUnits[0], TemporalUnit(u.frameUnits[1..]);
      var b, c := FrameBytes(f), FramesBytes(rest);
      FrameIsWide(f);
      assert before + FramesBytes(u) + after == before + b + (c + after);
      FrameRoundTrip(before, f, c + after);
      assert before + b + (c + after) == (before + b) + c + after;
      FramesRoundTrip(before + b, rest, after);
    }
  }

  lemma {:induction false} FrameIsWide(f: FrameUnit)
    requires FrameFits(f)
    ensures |FrameBytes(f)| > |ObusBytes(f)|
  {
    hide Leb, ObusBytes;
  }

  lemma {:induction false} UnitRoundTrip(before: bytes, u: TemporalUnit, after: bytes)
    requires UnitFits(u) && CanonicalUnit(u) && |FramesBytes(u)| <= MAX32
    ensures UnitAt(before + UnitBytes(u) + after, |before|) == Some(At(ErasedUnit(u), |before| + |UnitBytes(u)|))
  {
    hide Leb, Leb128At, FramesFrom, FramesBytes, UnitFits, CanonicalUnit;
    var b := FramesBytes(u);
    assert before + UnitBytes(u) + after == before + Leb(|b|) + (b + after);
    LebRoundTripExactlyWhen(before, |b|, b + after);
    assert before + Leb(|b|) + (b + after) == (before + Leb(|b|)) + b + after;
    FramesRoundTrip(before + Leb(|b|), u, after);
  }

  lemma {:induction false} ErasedKeepsTypes(u: TemporalUnit)
    ensures CanonicalUnit(ErasedUnit(u)) <==> CanonicalUnit(u)
  {
    forall i | 0 <= i < |u.frameUnits|
      ensures CanonicalFrame(ErasedFrames(u.frameUnits)[i]) <==> CanonicalFrame(u.frameUnits[i])
    {
      ErasedFrameAt(u.frameUnits, i);
      ErasedFrameKeepsTypes(u.frameUnits[i]);
    }
    hide CanonicalFrame, ErasedFrames;
  }

  lemma {:induction false} ErasedFrameAt(frames: seq<FrameUnit>, i: nat)
    requires i < |frames|
    ensures ErasedFrames(frames)[i] == FrameUnit(ErasedObus(frames[i].obus))
  {
    if i > 0 {
      ErasedFrameAt(frames[1..], i - 1);
    }
  }

  lemma {:induction false} ErasedFrameKeepsTypes(f: FrameUnit)
    ensures CanonicalFrame(FrameUnit(ErasedObus(f.obus))) <==> CanonicalFrame(f)
  {
    forall i | 0 <= i < |f.obus| ensures CanonicalObu(ErasedObus(f.obus)[i]) <==> CanonicalObu(f.obus[i]) {
      ErasedObuAt(f.obus, i);
    }
    hide CanonicalObu, ErasedObus;
  }

  lemma {:induction false} ErasedObuAt(obus: seq<Obu>, i: nat)
    requires i < |obus|
    ensures ErasedObus(obus)[i] == Erased(obus[i])
  {
    if i > 0 {
      ErasedObuAt(obus[1..], i - 1);
    }
  }

  lemma {:induction false} ReadObusAreCanonical(data: bytes, p: nat, end: nat)
    ensures var r := ObusFrom(data, p, end); r.Some? ==> CanonicalFrame(FrameUnit(r.value))
    decreases |data| - p
  {
    hide CanonicalObu;
    if p < end && ObuAt(data, p).Some? {
      ReadObuIsCanonical(data, p);
      hide ObuAt;
      ReadObusAreCanonical(data, ObuAt(data, p).value.next, end);
    }
  }

  lemma {:induction false} ReadObuIsCanonical(data: bytes, p: nat)
    requires ObuAt(data, p).Some?
    ensures CanonicalObu(ObuAt(data, p).value.item)
  {
    hide Leb128At, HeaderAt;
    ReadIsCanonical(data, Leb128At(data, p).value.next);
  }

  lemma {:induction false} ReadFramesAreCanonical(data: bytes, p: nat, end: nat)
    ensures var r := FramesFrom(data, p, end); r.Some? ==> CanonicalUnit(TemporalUnit(r.value))
    decreases |data| - p
  {
    hide CanonicalFrame, ObusFrom, Leb128At;
    if p < end && FrameAt(data, p).Some? {
      var n := Leb128At(data, p).value;
      ReadObusAreCanonical(data, n.next, n.next + n.value);
      ReadFramesAreCanonical(data, FrameAt(data, p).value.next, end);
    }
  }

  /**
   Between any other bytes, a written temporal unit reads back with the size fields of its units
   erased, all of it and nothing more, exactly when its types are canonical and its payload has a
   32-bit length.
   */
  lemma {:induction false} UnitRoundTripExactlyWhen(before: bytes, u: TemporalUnit, after: bytes)
    requires UnitFits(u)
    ensures UnitAt(before + UnitBytes(u) + after, |before|) == Some(At(ErasedUnit(u), |before| + |UnitBytes(u)|))
            <==> CanonicalUnit(u) && |FramesBytes(u)| <= MAX32
  {
    hide *;
    var s := before + UnitBytes(u) + after;
    if CanonicalUnit(u) && |FramesBytes(u)| <= MAX32 {
      UnitRoundTrip(before, u, after);
    } else if UnitAt(s, |before|).Some? {
      if CanonicalUnit(u) {
        LongUnit(before, u, after);
      } else {
        ReadUnitIsCanonical(s, |before|);
        ErasedKeepsTypes(u);
      }
    }
  }

  lemma {:induction false} ReadUnitIsCanonical(data: bytes, p: nat)
    requires UnitAt(data, p).Some?
    ensures CanonicalUnit(UnitAt(data, p).value.item)
  {
    hide CanonicalUnit, FramesFrom, Leb128At;
    var n := Leb128At(data, p).value;
    ReadFramesAreCanonical(data, n.next, n.next + n.value);
  }

  /** A payload too long for its length ends too early, if it is read at all. */
  lemma {:induction false} LongUnit(before: bytes, u: TemporalUnit, after: bytes)
    requires UnitFits(u) && |FramesBytes(u)| > MAX32
    ensures var r := UnitAt(before + UnitBytes(u) + after, |before|);
            r.Some? ==> r.value.next < |before| + |UnitBytes(u)|
  {
    hide Leb, FramesFrom, FramesBytes, UnitFits, Digits;
    var b := FramesBytes(u);
    assert before + UnitBytes(u) + after == before + Leb(|b|) + (b + after);
    DigitsOfLeb(before, |b|, b + after, 8);
  }

  // ---------------------------------------------------------------- streams

  ghost predicate Writable(u: TemporalUnit) { UnitFits(u) && CanonicalUnit(u) && |FramesBytes(u)| <= MAX32 }

  ghost function StreamBytes(units: seq<TemporalUnit>): bytes
    requires forall i :: 0 <= i < |units| ==> Writable(units[i])
  {
    if units == [] then []
    else
      assert Writable(units[0]);
      UnitBytes(units[0]) + StreamBytes(units[1..])
  }

  function ErasedUnits(units: seq<TemporalUnit>): seq<TemporalUnit> {
    if units == [] then [] else [ErasedUnit(units[0])] + ErasedUnits(units[1..])
  }

  /** A whole stream of temporal units, one after the other. */
  lemma {:induction false} StreamRoundTrip(before: bytes, units: seq<TemporalUnit>)
    requires forall i :: 0 <= i < |units| ==> Writable(units[i])
    ensures UnitsFrom(before + StreamBytes(units), |before|) == Some(ErasedUnits(units))
    decreases |units|
  {
    hide Writable, UnitBytes, UnitAt, ErasedUnit;
    if units != [] {
      var u, rest := units[0], units[1..];
      assert Writable(u);
      UnitReads(before, u, StreamBytes(rest));
      assert before + StreamBytes(units) == before + UnitBytes(u) + StreamBytes(rest);
      StreamRoundTrip(before + UnitBytes(u), rest);
    } else {
      assert before + [] == before;
    }
  }

  lemma {:induction false} UnitReads(before: bytes, u: TemporalUnit, after: bytes)
    requires Writable(u)
    ensures UnitFits(u) && |UnitBytes(u)| > 0
    ensures UnitAt(before + UnitBytes(u) + after, |before|) == Some(At(ErasedUnit(u), |before| + |UnitBytes(u)|))
  {
    hide Leb, FramesBytes, UnitAt, ErasedUnit, UnitFits, CanonicalUnit;
    UnitRoundTrip(before, u, after);
  }
}
