/** The AMF0 encoder, which appends to a writer, and the AMF0 decoder, a cursor over a byte slice. */
module Amf0Codec {
  import opened Bytes
  import opened Amf0
  import opened Amf0RoundTrip

  // ---------------------------------------------------------------- encoder

  class Writer {
    var out: bytes

    constructor ()
      ensures out == []
    {
      out := [];
    }
  }

  method EncodeValue(w: Writer, v: Value) returns (ok: bool)
    modifies w
    ensures w.out == old(w.out) + Encode(v).out && ok == Encode(v).ok
    decreases v, 3
  {
    match v {
      case Object(props) => ok := EncodeObject(w, props);
      case EcmaArray(items) => ok := EncodeEcmaArray(w, items);
      case StrictArray(values) => ok := EncodeStrictArray(w, values);
      case _ => ok := EncodeLeaf(w, v);
    }
  }

  /** Numbers, booleans, strings, null, undefined and dates. */
  method EncodeLeaf(w: Writer, v: Value) returns (ok: bool)
    requires !v.Object? && !v.EcmaArray? && !v.StrictArray?
    modifies w
    ensures w.out == old(w.out) + Encode(v).out && ok == Encode(v).ok
  {
    hide U16Bytes, U32Bytes, KeyBytes;
    ok := true;
    match v {
      case Number(bits) =>
        w.out := w.out + [0x00];
        w.out := w.out + bits;
      case Boolean(b) =>
        w.out := w.out + [0x01];
        w.out := w.out + [if b then 1 else 0];
      case String(text) =>
        if |text| > 0xFFFF {
          return false;
        }
        w.out := w.out + [0x02];
        WritePropertyKey(w, text);
      case Null =>
        w.out := w.out + [0x05];
      case Undefined =>
        w.out := w.out + [0x06];
      case Date(timestamp, timezone) =>
        w.out := w.out + [0x0b];
        w.out := w.out + timestamp;
        w.out := w.out + U16Bytes(TwosComplement(timezone));
      case LongString(long) =>
        w.out := w.out + [0x0c];
        w.out := w.out + U32Bytes(|long| % 0x1_0000_0000);
        w.out := w.out + long;
    }
  }

  method EncodeObject(w: Writer, props: seq<Property>) returns (ok: bool)
    modifies w
    ensures w.out == old(w.out) + Encode(Object(props)).out && ok == Encode(Object(props)).ok
    decreases props, 2
  {
    hide EncodeProps;
    w.out := w.out + [0x03];
    ok := EncodePropertyList(w, props);
    if ok {
      w.out := w.out + ObjectEnd;
    }
  }

  method EncodeEcmaArray(w: Writer, items: seq<Property>) returns (ok: bool)
    modifies w
    ensures w.out == old(w.out) + Encode(EcmaArray(items)).out && ok == Encode(EcmaArray(items)).ok
    decreases items, 2
  {
    hide EncodeProps, U32Bytes;
    w.out := w.out + [0x08];
    w.out := w.out + U32Bytes(|items| % 0x1_0000_0000);
    ok := EncodePropertyList(w, items);
    if ok {
      w.out := w.out + ObjectEnd;
    }
  }

  method EncodeStrictArray(w: Writer, values: seq<Value>) returns (ok: bool)
    modifies w
    ensures w.out == old(w.out) + Encode(StrictArray(values)).out && ok == Encode(StrictArray(values)).ok
    decreases values, 2
  {
    hide EncodeValues, U32Bytes;
    w.out := w.out + [0x0a];
    w.out := w.out + U32Bytes(|values| % 0x1_0000_0000);
    ok := EncodeValueList(w, values);
  }

  method WritePropertyKey(w: Writer, key: bytes)
    modifies w
    ensures w.out == old(w.out) + KeyBytes(key)
  {
    w.out := w.out + U16Bytes(|key| % 0x1_0000);
    w.out := w.out + key;
  }

  method EncodePropertyList(w: Writer, props: seq<Property>) returns (ok: bool)
    modifies w
    ensures w.out == old(w.out) + EncodeProps(props).out && ok == EncodeProps(props).ok
    decreases props, 1
  {
    hide Encode, KeyBytes, EncodeProps, Then, Wrote;
    ghost var done: bytes := [];
    assert props[0..] == props;
    NothingThen(EncodeProps(props));
    for i := 0 to |props|
      invariant w.out == old(w.out) + done
      invariant EncodeProps(props) == Then(Wrote(done), EncodeProps(props[i..]))
    {
      ghost var k, r := KeyBytes(props[i].key), Encode(props[i].value);
      PropsFrom(props, i);
      ThenAssociates(done, k, r, EncodeProps(props[i + 1..]));
      WritePropertyKey(w, props[i].key);
      ok := EncodeValue(w, props[i].value);
      done := done + k + r.out;
      if !ok {
        return;
      }
    }
    PropsFrom(props, |props|);
    ThenNothing(done);
    ok := true;
  }

  method EncodeValueList(w: Writer, values: seq<Value>) returns (ok: bool)
    modifies w
    ensures w.out == old(w.out) + EncodeValues(values).out && ok == EncodeValues(values).ok
    decreases values, 1
  {
    hide Encode, EncodeValues, Then, Wrote;
    ghost var done: bytes := [];
    assert values[0..] == values;
    NothingThen(EncodeValues(values));
    for i := 0 to |values|
      invariant w.out == old(w.out) + done
      invariant EncodeValues(values) == Then(Wrote(done), EncodeValues(values[i..]))
    {
      ghost var r := Encode(values[i]);
      ValuesFrom(values, i);
      ThenAssociates(done, [], r, EncodeValues(values[i + 1..]));
      ok := EncodeValue(w, values[i]);
      done := done + [] + r.out;
      if !ok {
        return;
      }
    }
    ValuesFrom(values, |values|);
    ThenNothing(done);
    ok := true;
  }

  lemma {:induction false} PropsFrom(props: seq<Property>, i: nat)
    requires i <= |props|
    ensures i == |props| ==> EncodeProps(props[i..]) == Wrote([])
    ensures i < |props| ==>
              EncodeProps(props[i..]) ==
              Then(Wrote(KeyBytes(props[i].key)), Then(Encode(props[i].value), EncodeProps(props[i + 1..])))
  {
    hide Encode, KeyBytes;
    if i < |props| {
      assert props[i..][1..] == props[i + 1..];
    }
  }

  lemma {:induction false} ValuesFrom(values: seq<Value>, i: nat)
    requires i <= |values|
    ensures i == |values| ==> EncodeValues(values[i..]) == Wrote([])
    ensures i < |values| ==>
              EncodeValues(values[i..]) == Then(Wrote([]), Then(Encode(values[i]), EncodeValues(values[i + 1..])))
  {
    hide Encode;
    if i < |values| {
      assert values[i..][1..] == values[i + 1..];
      ThenAssociates([], [], Encode(values[i]), EncodeValues(values[i + 1..]));
    }
  }

  lemma {:induction false} NothingThen(r: Written)
    ensures Then(Wrote([]), r) == r
  {
    assert [] + r.out == r.out;
  }

  lemma {:induction false} ThenNothing(done: bytes)
    ensures Then(Wrote(done), Wrote([])) == Written(done, true)
  {
    assert done + [] == done;
  }

  lemma {:induction false} ThenAssociates(done: bytes, k: bytes, r: Written, later: Written)
    ensures Then(Wrote(done), Then(Wrote(k), Then(r, later))) ==
            if r.ok then Then(Wrote(done + k + r.out), later) else Written(done + k + r.out, false)
    ensures Then(Wrote([]), Then(r, later)) == Then(r, later)
  {
    assert done + (k + r.out) == done + k + r.out;
    assert done + (k + (r.out + later.out)) == done + k + r.out + later.out;
    assert [] + Then(r, later).out == Then(r, later).out;
  }

  // ---------------------------------------------------------------- decoder

  datatype Outcome<+T> = Success(value: T) | Failure(error: ReadError)

  /** A method's outcome and the distance the cursor moved, as the specification says. */
  ghost predicate Agrees<T>(o: Outcome<T>, spec: Read<T>, moved: int) {
    && moved == spec.used
    && match spec
       case Ok(v, _) => o == Success(v)
       case Err(e, _) => o == Failure(e)
  }

  /** A list read in pieces: `done` so far over `k` bytes, the rest as `r`. */
  ghost function Resume<T>(done: seq<T>, k: nat, r: Read<seq<T>>): Read<seq<T>> {
    match r
    case Ok(xs, u) => Ok(done + xs, k + u)
    case Err(e, u) => Err(e, k + u)
  }

  lemma {:induction false} ResumeCons<T>(done: seq<T>, k: nat, x: T, u: nat, r: Read<seq<T>>)
    ensures Resume(done, k, Cons(x, Shift(r, u))) == Resume(done + [x], k + u, r)
    ensures Resume([], 0, r) == r
  {
    if r.Ok? {
      assert done + ([x] + r.value) == (done + [x]) + r.value;
      assert [] + r.value == r.value;
    }
  }

  class Amf0Decoder {
    const data: bytes
    var pos: nat

    constructor (data: bytes)
      ensures this.data == data && pos == 0
    {
      this.data, pos := data, 0;
    }

    ghost function Rest(): bytes
      requires pos <= |data|
      reads this
    {
      data[pos..]
    }

    method ReadExact(n: nat) returns (r: Outcome<bytes>)
      requires pos <= |data|
      modifies this
      ensures pos <= |data| && Agrees(r, ReadBytes(old(Rest()), n), pos - old(pos))
    {
      var end := pos + n;
      if end > |data| {
        return Failure(Eof);
      }
      assert data[pos..][..n] == data[pos..end];
      r := Success(data[pos..end]);
      pos := end;
    }

    method ReadCount() returns (r: Outcome<u32>)
      requires pos <= |data|
      modifies this
      ensures pos <= |data|
      ensures |old(Rest())| < 4 ==> r == Failure(Eof) && pos == old(pos)
      ensures |old(Rest())| >= 4 ==>
                && pos == old(pos) + 4
                && r == Success(U32(old(Rest())[0], old(Rest())[1], old(Rest())[2], old(Rest())[3]))
    {
      var b := ReadExact(4);
      if b.Failure? {
        return Failure(b.error);
      }
      r := Success(U32(b.value[0], b.value[1], b.value[2], b.value[3]));
    }

    method ReadKey() returns (r: Outcome<bytes>)
      requires pos <= |data|
      modifies this
      ensures pos <= |data| && Agrees(r, ReadString(old(Rest())), pos - old(pos))
    {
      hide IsUtf8;
      ghost var s := Rest();
      var b := ReadExact(2);
      if b.Failure? {
        return Failure(b.error);
      }
      var n := U16(b.value[0], b.value[1]);
      var text := ReadExact(n);
      if text.Failure? {
        return text;
      }
      assert s[2..][..n] == s[2..2 + n] == text.value;
      if !IsUtf8(text.value) {
        return Failure(BadUtf8);
      }
      return text;
    }

    method ReadLongText() returns (r: Outcome<bytes>)
      requires pos <= |data|
      modifies this
      ensures pos <= |data| && Agrees(r, ReadLongString(old(Rest())), pos - old(pos))
    {
      hide IsUtf8, U32;
      ghost var s := Rest();
      var n := ReadCount();
      if n.Failure? {
        return Failure(n.error);
      }
      var text := ReadExact(n.value);
      if text.Failure? {
        return text;
      }
      assert s[4..][..n.value] == s[4..4 + n.value] == text.value;
      if !IsUtf8(text.value) {
        return Failure(BadUtf8);
      }
      return text;
    }

    method ReadDateValue() returns (r: Outcome<Value>)
      requires pos <= |data|
      modifies this
      ensures pos <= |data| && Agrees(r, ReadDate(old(Rest())), pos - old(pos))
    {
      ghost var s := Rest();
      var ts := ReadExact(8);
      if ts.Failure? {
        return Failure(ts.error);
      }
      var tz := ReadExact(2);
      if tz.Failure? {
        return Failure(tz.error);
      }
      assert tz.value[0] == s[8] && tz.value[1] == s[9];
      var n: int := U16(tz.value[0], tz.value[1]);
      r := Success(Date(ts.value, if n >= 0x8000 then n - 0x1_0000 else n));
    }

    /** Consumes an object-end marker if one is next; otherwise the cursor does not move. */
    method IsReadObjectEof() returns (end: bool)
      requires pos <= |data|
      modifies this
      ensures pos <= |data|
      ensures end == AtObjectEnd(old(Rest())) && pos == old(pos) + if end then 3 else 0
    {
      if pos + 3 > |data| {
        return false;
      }
      var savedPos := pos;
      var b := ReadExact(3);
      end := U24(b.value[0], b.value[1], b.value[2]) == 9;
      if !end {
        pos := savedPos;
      }
    }

    method DecodeNext() returns (r: Outcome<Value>)
      requires pos <= |data|
      modifies this
      ensures pos <= |data| && Agrees(r, Decode(old(Rest())), pos - old(pos))
      decreases |data| - pos, 2
    {
      ghost var s := Rest();
      var b := ReadExact(1);
      if b.Failure? {
        return Failure(b.error);
      }
      hide DecodeMarked;
      r := DecodeBody(b.value[0]);
    }

    method DecodeBody(marker: byte) returns (r: Outcome<Value>)
      requires pos <= |data|
      modifies this
      ensures pos <= |data| && Agrees(r, DecodeMarked(marker, old(Rest())), pos - old(pos))
      decreases |data| - pos, 3
    {
      hide ReadProps, ReadEcma, ReadValues, ReadString, ReadLongString, ReadDate;
      if marker == 0x00 {
        var b := ReadExact(8);
        r := if b.Success? then Success(Number(b.value)) else Failure(b.error);
      } else if marker == 0x01 {
        var b := ReadExact(1);
        r := if b.Success? then Success(Boolean(b.value[0] > 0)) else Failure(b.error);
      } else if marker == 0x02 {
        var b := ReadKey();
        r := if b.Success? then Success(String(b.value)) else Failure(b.error);
      } else if marker == 0x03 {
        var ps := ReadObject();
        r := if ps.Success? then Success(Object(ps.value)) else Failure(ps.error);
      } else if marker == 0x05 {
        r := Success(Null);
      } else if marker == 0x06 {
        r := Success(Undefined);
      } else if marker == 0x08 {
        r := ReadEcmaArray();
      } else if marker == 0x0a {
        r := ReadStrictArray();
      } else if marker == 0x0b {
        r := ReadDateValue();
      } else if marker == 0x0c {
        var b := ReadLongText();
        r := if b.Success? then Success(LongString(b.value)) else Failure(b.error);
      } else if marker <= 0x11 {
        r := Failure(UnsupportedType(marker));
      } else {
        r := Failure(UnknownMarker(marker));
      }
    }

    method ReadOneProperty() returns (r: Outcome<Property>)
      requires pos <= |data|
      modifies this
      ensures pos <= |data| && Agrees(r, ReadProperty(old(Rest())), pos - old(pos))
      decreases |data| - pos, 0
    {
      hide Decode, ReadString;
      ghost var s := Rest();
      var key := ReadKey();
      if key.Failure? {
        return Failure(key.error);
      }
      assert Rest() == s[ReadString(s).used..];
      var val := DecodeNext();
      if val.Failure? {
        return Failure(val.error);
      }
      r := Success(Property(key.value, val.value));
    }

    method ReadObject() returns (r: Outcome<seq<Property>>)
      requires pos <= |data|
      modifies this
      ensures pos <= |data| && Agrees(r, ReadProps(old(Rest())), pos - old(pos))
      decreases |data| - pos, 1
    {
      hide ReadProperty, AtObjectEnd;
      var props: seq<Property> := [];
      ghost var p0, goal := pos, ReadProps(Rest());
      ResumeCons([], 0, Property([], Null), 0, goal);
      while true
        invariant p0 <= pos <= |data| && p0 == old(pos)
        invariant goal == Resume(props, pos - p0, ReadProps(Rest()))
        decreases |data| - pos
      {
        ghost var s := Rest();
        var end := IsReadObjectEof();
        if end {
          assert props + [] == props;
          return Success(props);
        }
        var p := ReadOneProperty();
        if p.Failure? {
          return Failure(p.error);
        }
        assert Rest() == s[ReadProperty(s).used..];
        ResumeCons(props, pos - ReadProperty(s).used - p0, p.value, ReadProperty(s).used, ReadProps(Rest()));
        props := props + [p.value];
      }
    }

    method ReadEcmaArray() returns (r: Outcome<Value>)
      requires pos <= |data|
      modifies this
      ensures pos <= |data| && Agrees(r, DecodeMarked(0x08, old(Rest())), pos - old(pos))
      decreases |data| - pos, 2
    {
      hide ReadEcma, U32;
      ghost var s := Rest();
      var len := ReadCount();
      if len.Failure? {
        return Failure(len.error);
      }
      assert Rest() == s[4..];
      var props := ReadCountedProperties(len.value);
      r := if props.Success? then Success(EcmaArray(props.value)) else Failure(props.error);
    }

    method ReadCountedProperties(len: nat) returns (r: Outcome<seq<Property>>)
      requires pos <= |data|
      modifies this
      ensures pos <= |data| && Agrees(r, ReadEcma(old(Rest()), len), pos - old(pos))
      decreases |data| - pos, 1
    {
      hide ReadProperty, AtObjectEnd;
      var props: seq<Property> := [];
      ghost var p0, goal := pos, ReadEcma(Rest(), len);
      ResumeCons([], 0, Property([], Null), 0, goal);
      for i := 0 to len
        invariant p0 <= pos <= |data| && p0 == old(pos)
        invariant goal == Resume(props, pos - p0, ReadEcma(Rest(), len - i))
      {
        ghost var s := Rest();
        var p := ReadOneProperty();
        if p.Failure? {
          return Failure(p.error);
        }
        assert Rest() == s[ReadProperty(s).used..];
        ResumeCons(props, pos - ReadProperty(s).used - p0, p.value, ReadProperty(s).used, ReadEcma(Rest(), len - i - 1));
        props := props + [p.value];
      }
      var _ := IsReadObjectEof();
      assert props + [] == props;
      r := Success(props);
    }

    method ReadStrictArray() returns (r: Outcome<Value>)
      requires pos <= |data|
      modifies this
      ensures pos <= |data| && Agrees(r, DecodeMarked(0x0a, old(Rest())), pos - old(pos))
      decreases |data| - pos, 2
    {
      hide ReadValues, U32;
      ghost var s := Rest();
      var len := ReadCount();
      if len.Failure? {
        return Failure(len.error);
      }
      assert Rest() == s[4..];
      var values := ReadCountedValues(len.value);
      r := if values.Success? then Success(StrictArray(values.value)) else Failure(values.error);
    }

    method ReadCountedValues(len: nat) returns (r: Outcome<seq<Value>>)
      requires pos <= |data|
      modifies this
      ensures pos <= |data| && Agrees(r, ReadValues(old(Rest()), len), pos - old(pos))
      decreases |data| - pos, 3
    {
      hide Decode;
      var values: seq<Value> := [];
      ghost var p0, goal := pos, ReadValues(Rest(), len);
      ResumeCons([], 0, Null, 0, goal);
      for i := 0 to len
        invariant p0 <= pos <= |data| && p0 == old(pos)
        invariant goal == Resume(values, pos - p0, ReadValues(Rest(), len - i))
      {
        ghost var s := Rest();
        var v := DecodeNext();
        if v.Failure? {
          return Failure(v.error);
        }
        assert Rest() == s[Decode(s).used..];
        ResumeCons(values, pos - Decode(s).used - p0, v.value, Decode(s).used, ReadValues(Rest(), len - i - 1));
        values := values + [v.value];
      }
      assert values + [] == values;
      r := Success(values);
    }

    method DecodeEverything() returns (values: seq<Value>, error: Option<ReadError>)
      requires pos <= |data|
      modifies this
      ensures pos <= |data| && All(values, error) == DecodeAll(old(Rest()))
    {
      hide Decode;
      values := [];
      ghost var goal := DecodeAll(Rest());
      while pos < |data|
        invariant pos <= |data|
        invariant goal == All(values + DecodeAll(Rest()).values, DecodeAll(Rest()).error)
        decreases |data| - pos
      {
        ghost var s := Rest();
        var v := DecodeNext();
        if v.Failure? {
          assert values + [] == values;
          return values, Some(v.error);
        }
        assert Rest() == s[Decode(s).used..];
        assert values + ([v.value] + DecodeAll(Rest()).values) == (values + [v.value]) + DecodeAll(Rest()).values;
        values := values + [v.value];
      }
      assert values + [] == values;
      error := None;
    }

    /** Skips a byte where a value should start but cannot, up to a number of bytes in a row. */
    method DecodeAllLossy(maxConsecutiveSkip: nat)
      returns (values: seq<Value>, bytesSkipped: nat, error: Option<ReadError>)
      requires pos <= |data|
      modifies this
      ensures pos <= |data|
      ensures var t := Lossy(old(Rest()), maxConsecutiveSkip, 0);
              && values == ValuesOf(t.events) && bytesSkipped == SkipsOf(t.events) && error == t.error
              && var stop := old(pos) + SpansOf(t.events) + SkipsOf(t.events);
                 && stop <= |data|
                 && pos == if error.None? then stop else stop + Decode(data[stop..]).used
    {
      hide Decode, ValuesOf, SkipsOf, SpansOf;
      values, bytesSkipped := [], 0;
      var consecutiveSkips := 0;
      ghost var goal, events := Lossy(Rest(), maxConsecutiveSkip, 0), [];
      NoEvents();
      while pos < |data|
        invariant pos <= |data|
        invariant goal == Trace(events + Lossy(Rest(), maxConsecutiveSkip, consecutiveSkips).events,
                                Lossy(Rest(), maxConsecutiveSkip, consecutiveSkips).error)
        invariant values == ValuesOf(events) && bytesSkipped == SkipsOf(events)
        invariant pos == old(pos) + SpansOf(events) + SkipsOf(events)
        decreases |data| - pos
      {
        var savedPos := pos;
        ghost var s := Rest();
        var v := DecodeNext();
        ghost var e: Event;
        if v.Success? {
          assert Rest() == s[Decode(s).used..];
          e := Decoded(v.value, Decode(s).used);
          values := values + [v.value];
          consecutiveSkips := 0;
        } else if v.error.IsRecoverable() {
          if consecutiveSkips >= maxConsecutiveSkip {
            assert events + [] == events;
            return values, bytesSkipped, Some(v.error);
          }
          pos := savedPos + 1;
          assert Rest() == s[1..];
          e := Skipped;
          bytesSkipped := bytesSkipped + 1;
          consecutiveSkips := consecutiveSkips + 1;
        } else {
          assert events + [] == events;
          return values, bytesSkipped, Some(v.error);
        }
        EventsSnoc(events, e);
        ghost var t := Lossy(Rest(), maxConsecutiveSkip, consecutiveSkips);
        assert events + ([e] + t.events) == (events + [e]) + t.events;
        events := events + [e];
      }
      assert events + [] == events;
      error := None;
    }
  }

  lemma {:induction false} NoEvents()
    ensures ValuesOf([]) == [] && SkipsOf([]) == 0 && SpansOf([]) == 0
  {}

  lemma {:induction false} EventsSnoc(events: seq<Event>, e: Event)
    ensures ValuesOf(events + [e]) == ValuesOf(events) + if e.Decoded? then [e.value] else []
    ensures SkipsOf(events + [e]) == SkipsOf(events) + if e.Skipped? then 1 else 0
    ensures SpansOf(events + [e]) == SpansOf(events) + if e.Decoded? then e.used else 0
  {
    hide ValuesOf, SkipsOf, SpansOf;
    NoEvents();
    if events == [] {
      EventsCons(e, []);
      assert events + [e] == [e] + [];
    } else {
      EventsSnoc(events[1..], e);
      EventsCons(events[0], events[1..]);
      EventsCons(events[0], events[1..] + [e]);
      assert events + [e] == [events[0]] + (events[1..] + [e]);
      assert events == [events[0]] + events[1..];
    }
  }
}
