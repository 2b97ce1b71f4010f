/** Decoding inverts encoding, in any context, exactly for the values whose sizes fit their length fields. */
module Amf0RoundTrip {
  import opened Bytes
  import opened Amf0

  /** Every size fits its field: keys and strings 16 bits, counts and long strings 32 bits. */
  predicate Fits(v: Value)
    decreases v, 1
  {
    match v
    case String(text) => |text| <= 0xFFFF
    case LongString(long) => |long| < 0x1_0000_0000
    case Object(props) => PropsFit(props)
    case EcmaArray(items) => |items| < 0x1_0000_0000 && PropsFit(items)
    case StrictArray(values) => |values| < 0x1_0000_0000 && ValuesFit(values)
    case _ => true
  }

  predicate PropsFit(props: seq<Property>)
    decreases props, 0
  {
    props == [] || (|props[0].key| <= 0xFFFF && Fits(props[0].value) && PropsFit(props[1..]))
  }

  predicate ValuesFit(values: seq<Value>)
    decreases values, 0
  {
    values == [] || (Fits(values[0]) && ValuesFit(values[1..]))
  }

  /** Every text is UTF-8, which the source's string type guarantees. */
  predicate Typed(v: Value)
    decreases v, 1
  {
    match v
    case String(text) => IsUtf8(text)
    case LongString(long) => IsUtf8(long)
    case Object(props) => PropsTyped(props)
    case EcmaArray(items) => PropsTyped(items)
    case StrictArray(values) => ValuesTyped(values)
    case _ => true
  }

  predicate PropsTyped(props: seq<Property>)
    decreases props, 0
  {
    props == [] || (IsUtf8(props[0].key) && Typed(props[0].value) && PropsTyped(props[1..]))
  }

  predicate ValuesTyped(values: seq<Value>)
    decreases values, 0
  {
    values == [] || (Typed(values[0]) && ValuesTyped(values[1..]))
  }

  // ---------------------------------------------------------------- leaves

  lemma {:induction false} TextRoundTrip(text: bytes, rest: bytes)
    requires |text| <= 0xFFFF && IsUtf8(text)
    ensures |KeyBytes(text)| == 2 + |text|
    ensures ReadString(KeyBytes(text) + rest) == Ok(text, 2 + |text|)
  {
    hide U16Bytes, U16, IsUtf8;
    U16BytesValue(|text|);
    assert |text| % 0x1_0000 == |text|;
    var w := KeyBytes(text) + rest;
    assert w[2..2 + |text|] == text;
    assert w[0] == U16Bytes(|text|)[0] && w[1] == U16Bytes(|text|)[1];
  }

  lemma {:induction false} CountField(n: u32, rest: bytes)
    ensures var w := U32Bytes(n) + rest; U32(w[0], w[1], w[2], w[3]) == n && w[4..] == rest
  {
    U32BytesValue(n);
    hide U32Bytes;
    var w := U32Bytes(n) + rest;
    assert forall i :: 0 <= i < 4 ==> w[i] == U32Bytes(n)[i];
  }

  lemma {:induction false} LongTextRoundTrip(text: bytes, rest: bytes)
    requires |text| < 0x1_0000_0000 && IsUtf8(text)
    ensures ReadLongString((U32Bytes(|text|) + text) + rest) == Ok(text, 4 + |text|)
  {
    CountField(|text|, text + rest);
    hide U32Bytes, U32, IsUtf8;
    var w := (U32Bytes(|text|) + text) + rest;
    assert w == U32Bytes(|text|) + (text + rest);
    assert w[4..4 + |text|] == text;
  }

  lemma {:induction false} DateRoundTrip(ts: F64, tz: i16, rest: bytes)
    ensures ReadDate((ts + U16Bytes(TwosComplement(tz))) + rest) == Ok(Date(ts, tz), 10)
  {
    U16BytesValue(TwosComplement(tz));
    var w := (ts + U16Bytes(TwosComplement(tz))) + rest;
    assert w[..8] == ts;
    assert w[8] == U16Bytes(TwosComplement(tz))[0] && w[9] == U16Bytes(TwosComplement(tz))[1];
  }

  /** Decoding a marker byte and a body. */
  lemma {:induction false} Marked(marker: byte, body: bytes)
    ensures Decode([marker] + body) == Shift(DecodeMarked(marker, body), 1)
  {
    hide DecodeMarked;
    assert ([marker] + body)[1..] == body;
  }

  /** No value starts like the end of an object: its marker is never 9. */
  lemma {:induction false} MarkerIsNotObjectEnd(v: Value)
    requires Encode(v).ok
    ensures Encode(v).out != [] && Encode(v).out[0] != 9
  {}

  // ---------------------------------------------------------------- the round trip

  lemma {:induction false} RoundTrip(v: Value, rest: bytes)
    requires Fits(v) && Typed(v)
    ensures Encode(v).ok
    ensures Decode(Encode(v).out + rest) == Ok(v, |Encode(v).out|)
    decreases v, 1
  {
    hide Encode, Decode, IsUtf8;
    match v
    case Object(props) => ObjectRoundTrip(props, rest);
    case EcmaArray(items) => EcmaArrayRoundTrip(items, rest);
    case StrictArray(values) => StrictArrayRoundTrip(values, rest);
    case String(_) => TextLeafRoundTrip(v, rest);
    case LongString(_) => TextLeafRoundTrip(v, rest);
    case _ => LeafRoundTrip(v, rest);
  }

  lemma {:induction false} LeafRoundTrip(v: Value, rest: bytes)
    requires Fits(v) && Typed(v) && (v.Number? || v.Boolean? || v.Null? || v.Undefined? || v.Date?)
    ensures Encode(v).ok
    ensures Decode(Encode(v).out + rest) == Ok(v, |Encode(v).out|)
  {
    hide U16Bytes, U32Bytes, U16, U32, IsUtf8;
    match v
    case Number(bits) =>
      LeafDecodes(0x00, bits, rest);
      assert (bits + rest)[..8] == bits;
    case Boolean(b) =>
      LeafDecodes(0x01, [if b then 1 else 0], rest);
      assert [0x01, if b then 1 else 0] == [0x01] + [if b then 1 else 0];
    case Null => LeafDecodes(0x05, [], rest); assert [0x05] == [0x05] + [];
    case Undefined => LeafDecodes(0x06, [], rest); assert [0x06] == [0x06] + [];
    case Date(ts, tz) =>
      var body := ts + U16Bytes(TwosComplement(tz));
      LeafDecodes(0x0b, body, rest);
      DateRoundTrip(ts, tz, rest);
      assert [0x0b] + ts + U16Bytes(TwosComplement(tz)) == [0x0b] + body;
  }

  lemma {:induction false} TextLeafRoundTrip(v: Value, rest: bytes)
    requires Fits(v) && Typed(v) && (v.String? || v.LongString?)
    ensures Encode(v).ok
    ensures Decode(Encode(v).out + rest) == Ok(v, |Encode(v).out|)
  {
    hide U16Bytes, U32Bytes, U16, U32, IsUtf8, ReadString, ReadLongString, Decode;
    match v
    case String(text) =>
      LeafDecodes(0x02, KeyBytes(text), rest);
      TextRoundTrip(text, rest);
    case LongString(long) =>
      var body := U32Bytes(|long|) + long;
      LeafDecodes(0x0c, body, rest);
      LongTextRoundTrip(long, rest);
      assert [0x0c] + U32Bytes(|long|) + long == [0x0c] + body;
  }

  lemma {:induction false} LeafDecodes(marker: byte, body: bytes, rest: bytes)
    ensures Decode(([marker] + body) + rest) == Shift(DecodeMarked(marker, body + rest), 1)
  {
    hide DecodeMarked, Decode;
    assert ([marker] + body) + rest == [marker] + (body + rest);
    Marked(marker, body + rest);
  }

  lemma {:induction false} ContainerBytes(props: seq<Property>, values: seq<Value>)
    ensures EncodeProps(props).ok ==> Encode(Object(props)) == Wrote([0x03] + (EncodeProps(props).out + ObjectEnd))
    ensures EncodeProps(props).ok && |props| < 0x1_0000_0000 ==>
              Encode(EcmaArray(props)) == Wrote([0x08] + (U32Bytes(|props|) + (EncodeProps(props).out + ObjectEnd)))
    ensures EncodeValues(values).ok && |values| < 0x1_0000_0000 ==>
              Encode(StrictArray(values)) == Wrote([0x0a] + (U32Bytes(|values|) + EncodeValues(values).out))
  {
    hide U32Bytes, EncodeProps, EncodeValues;
  }

  lemma {:induction false} ContainerBody(n: u32, body: bytes)
    ensures DecodeMarked(0x03, body) == AsObject(ReadProps(body))
    ensures DecodeMarked(0x08, U32Bytes(n) + body) == AsEcmaArray(Shift(ReadEcma(body, n), 4))
    ensures DecodeMarked(0x0a, U32Bytes(n) + body) == AsStrictArray(Shift(ReadValues(body, n), 4))
  {
    hide U32Bytes, U32, ReadEcma, ReadValues, ReadProps;
    CountField(n, body);
  }

  lemma {:induction false} ObjectRoundTrip(props: seq<Property>, rest: bytes)
    requires PropsFit(props) && PropsTyped(props)
    ensures Encode(Object(props)).ok
    ensures Decode(Encode(Object(props)).out + rest) == Ok(Object(props), |Encode(Object(props)).out|)
    decreases props, 2
  {
    hide Encode, Decode, DecodeMarked, ReadProps, EncodeProps, PropsFit, PropsTyped;
    PropsRoundTrip(props, rest);
    ContainerBytes(props, []);
    var body := EncodeProps(props).out + ObjectEnd;
    LeafDecodes(0x03, body, rest);
    ContainerBody(0, body + rest);
    assert body + rest == EncodeProps(props).out + (ObjectEnd + rest);
  }

  lemma {:induction false} EcmaArrayRoundTrip(items: seq<Property>, rest: bytes)
    requires |items| < 0x1_0000_0000 && PropsFit(items) && PropsTyped(items)
    ensures Encode(EcmaArray(items)).ok
    ensures Decode(Encode(EcmaArray(items)).out + rest) == Ok(EcmaArray(items), |Encode(EcmaArray(items)).out|)
    decreases items, 2
  {
    hide Encode, Decode, DecodeMarked, ReadEcma, EncodeProps, PropsFit, PropsTyped, U32Bytes;
    EcmaRoundTrip(items, rest);
    ContainerBytes(items, []);
    var count, out := U32Bytes(|items|), EncodeProps(items).out;
    LeafDecodes(0x08, count + (out + ObjectEnd), rest);
    ContainerBody(|items|, out + (ObjectEnd + rest));
    assert (count + (out + ObjectEnd)) + rest == count + (out + (ObjectEnd + rest));
  }

  lemma {:induction false} StrictArrayRoundTrip(values: seq<Value>, rest: bytes)
    requires |values| < 0x1_0000_0000 && ValuesFit(values) && ValuesTyped(values)
    ensures Encode(StrictArray(values)).ok
    ensures Decode(Encode(StrictArray(values)).out + rest) == Ok(StrictArray(values), |Encode(StrictArray(values)).out|)
    decreases values, 2
  {
    hide Encode, Decode, DecodeMarked, ReadValues, EncodeValues, ValuesFit, ValuesTyped, U32Bytes;
    ValuesRoundTrip(values, rest);
    ContainerBytes([], values);
    var count, out := U32Bytes(|values|), EncodeValues(values).out;
    LeafDecodes(0x0a, count + out, rest);
    ContainerBody(|values|, out + rest);
    assert (count + out) + rest == count + (out + rest);
  }

  lemma {:induction false} PropertyRoundTrip(p: Property, rest: bytes)
    requires |p.key| <= 0xFFFF && IsUtf8(p.key) && Fits(p.value) && Typed(p.value)
    ensures Encode(p.value).ok
    ensures var w := KeyBytes(p.key) + (Encode(p.value).out + rest);
            && !AtObjectEnd(w)
            && ReadProperty(w) == Ok(p, |KeyBytes(p.key)| + |Encode(p.value).out|)
    decreases p, 1
  {
    hide Encode, Decode, IsUtf8;
    RoundTrip(p.value, rest);
    var v := Encode(p.value).out + rest;
    TextRoundTrip(p.key, v);
    assert (KeyBytes(p.key) + v)[2 + |p.key|..] == v;
    KeyIsNotObjectEnd(p, rest);
    hide AtObjectEnd, KeyBytes;
  }

  lemma {:induction false} KeyIsNotObjectEnd(p: Property, rest: bytes)
    requires |p.key| <= 0xFFFF && Encode(p.value).ok
    ensures !AtObjectEnd(KeyBytes(p.key) + (Encode(p.value).out + rest))
  {
    MarkerIsNotObjectEnd(p.value);
    hide Encode;
    if p.key == [] {
      assert (KeyBytes(p.key) + (Encode(p.value).out + rest))[2] == Encode(p.value).out[0];
    } else {
      U16BytesValue(|p.key|);
      var w := KeyBytes(p.key) + (Encode(p.value).out + rest);
      assert w[0] == U16Bytes(|p.key|)[0] && w[1] == U16Bytes(|p.key|)[1];
    }
  }

  /** The bytes of a property list, one property at a time, before whatever follows it. */
  lemma {:induction false} PropsBytes(props: seq<Property>, end: bytes)
    requires props != [] && Encode(props[0].value).ok && EncodeProps(props[1..]).ok
    ensures EncodeProps(props).ok
    ensures var k, v, more := KeyBytes(props[0].key), Encode(props[0].value).out, EncodeProps(props[1..]).out;
            && |EncodeProps(props).out| == |k| + |v| + |more|
            && EncodeProps(props).out + end == k + (v + (more + end))
            && (EncodeProps(props).out + end)[|k| + |v|..] == more + end
  {
    hide Encode, KeyBytes;
    var k, v, more := KeyBytes(props[0].key), Encode(props[0].value).out, EncodeProps(props[1..]).out;
    assert EncodeProps(props).out == k + (v + more);
    assert (k + (v + more)) + end == k + (v + (more + end));
  }

  /** Reading a list whose first property is known. */
  lemma {:induction false} ReadListStep(w: bytes, n: nat)
    requires ReadProperty(w).Ok?
    ensures var p, u := ReadProperty(w).value, ReadProperty(w).used;
            && (!AtObjectEnd(w) ==> ReadProps(w) == Cons(p, Shift(ReadProps(w[u..]), u)))
            && (n > 0 ==> ReadEcma(w, n) == Cons(p, Shift(ReadEcma(w[u..], n - 1), u)))
  {
    hide ReadProperty, AtObjectEnd;
  }

  lemma {:induction false} EmptyList(rest: bytes)
    ensures EncodeProps([]).ok && EncodeProps([]).out == []
    ensures ReadProps([] + (ObjectEnd + rest)) == Ok([], 3) && ReadEcma([] + (ObjectEnd + rest), 0) == Ok([], 3)
  {
    assert [] + (ObjectEnd + rest) == ObjectEnd + rest;
  }

  lemma {:induction false} PropsRoundTrip(props: seq<Property>, rest: bytes)
    requires PropsFit(props) && PropsTyped(props)
    ensures EncodeProps(props).ok
    ensures ReadProps(EncodeProps(props).out + (ObjectEnd + rest)) == Ok(props, |EncodeProps(props).out| + 3)
    decreases props, 1
  {
    hide Encode, EncodeProps, KeyBytes, ReadProperty, AtObjectEnd, ReadProps;
    if props == [] {
      EmptyList(rest);
    } else {
      PropsRoundTrip(props[1..], rest);
      PropertyRoundTrip(props[0], EncodeProps(props[1..]).out + (ObjectEnd + rest));
      PropsBytes(props, ObjectEnd + rest);
      ReadListStep(EncodeProps(props).out + (ObjectEnd + rest), 0);
      assert [props[0]] + props[1..] == props;
    }
  }

  lemma {:induction false} EcmaRoundTrip(props: seq<Property>, rest: bytes)
    requires PropsFit(props) && PropsTyped(props)
    ensures EncodeProps(props).ok
    ensures ReadEcma(EncodeProps(props).out + (ObjectEnd + rest), |props|) == Ok(props, |EncodeProps(props).out| + 3)
    decreases props, 1
  {
    hide Encode, EncodeProps, KeyBytes, ReadProperty, AtObjectEnd, ReadEcma;
    if props == [] {
      EmptyList(rest);
    } else {
      EcmaRoundTrip(props[1..], rest);
      PropertyRoundTrip(props[0], EncodeProps(props[1..]).out + (ObjectEnd + rest));
      PropsBytes(props, ObjectEnd + rest);
      ReadListStep(EncodeProps(props).out + (ObjectEnd + rest), |props|);
      assert [props[0]] + props[1..] == props;
    }
  }

  /** The end marker of an associative array may be missing, as long as nothing that looks like it follows. */
  lemma {:induction false} OpenEcmaRoundTrip(props: seq<Property>, rest: bytes)
    requires PropsFit(props) && PropsTyped(props) && !AtObjectEnd(rest)
    ensures EncodeProps(props).ok
    ensures ReadEcma(EncodeProps(props).out + rest, |props|) == Ok(props, |EncodeProps(props).out|)
    decreases props, 1
  {
    hide Encode, EncodeProps, KeyBytes, ReadProperty, AtObjectEnd, ReadEcma;
    if props == [] {
      NothingOpen(rest);
    } else {
      OpenEcmaRoundTrip(props[1..], rest);
      PropertyRoundTrip(props[0], EncodeProps(props[1..]).out + rest);
      PropsBytes(props, rest);
      ReadListStep(EncodeProps(props).out + rest, |props|);
      assert [props[0]] + props[1..] == props;
    }
  }

  lemma {:induction false} NothingOpen(rest: bytes)
    requires !AtObjectEnd(rest)
    ensures EncodeProps([]).ok && EncodeProps([]).out == [] && ReadEcma([] + rest, 0) == Ok([], 0)
  {
    assert [] + rest == rest;
  }

  /** An encoded associative array without its last three bytes is still that array, and takes just what is left. */
  lemma {:induction false} EndMarkerIsOptional(items: seq<Property>, rest: bytes)
    requires Fits(EcmaArray(items)) && Typed(EcmaArray(items)) && !AtObjectEnd(rest)
    ensures Encode(EcmaArray(items)).ok && |Encode(EcmaArray(items)).out| >= 8
    ensures var out := Encode(EcmaArray(items)).out;
            var open := out[..|out| - 3];
            out == open + [0, 0, 9] && Decode(open + rest) == Ok(EcmaArray(items), |open|)
  {
    hide Encode, Decode, DecodeMarked, ReadEcma, EncodeProps, PropsFit, PropsTyped, U32Bytes, AtObjectEnd;
    OpenEcmaRoundTrip(items, rest);
    ContainerBytes(items, []);
    var count, out := U32Bytes(|items|), EncodeProps(items).out;
    LeafDecodes(0x08, count + out, rest);
    ContainerBody(|items|, out + rest);
    assert (count + out) + rest == count + (out + rest);
    assert [0x08] + (count + (out + ObjectEnd)) == [0x08] + (count + out) + ObjectEnd;
  }

  lemma {:induction false} ValuesBytes(values: seq<Value>, rest: bytes)
    requires values != [] && Encode(values[0]).ok && EncodeValues(values[1..]).ok
    ensures EncodeValues(values).ok
    ensures var v, more := Encode(values[0]).out, EncodeValues(values[1..]).out;
            && |EncodeValues(values).out| == |v| + |more|
            && EncodeValues(values).out + rest == v + (more + rest)
            && (EncodeValues(values).out + rest)[|v|..] == more + rest
  {
    hide Encode;
    var v, more := Encode(values[0]).out, EncodeValues(values[1..]).out;
    assert EncodeValues(values).out == v + more;
    assert (v + more) + rest == v + (more + rest);
  }

  lemma {:induction false} ReadValuesStep(w: bytes, n: nat)
    requires Decode(w).Ok? && n > 0
    ensures var v, u := Decode(w).value, Decode(w).used;
            ReadValues(w, n) == Cons(v, Shift(ReadValues(w[u..], n - 1), u))
  {
    hide Decode;
  }

  lemma {:induction false} ValuesRoundTrip(values: seq<Value>, rest: bytes)
    requires ValuesFit(values) && ValuesTyped(values)
    ensures EncodeValues(values).ok
    ensures ReadValues(EncodeValues(values).out + rest, |values|) == Ok(values, |EncodeValues(values).out|)
    decreases values, 1
  {
    if values != [] {
      hide Encode, Decode, ReadValues, EncodeValues;
      var v, more := values[0], EncodeValues(values[1..]).out;
      ValuesRoundTrip(values[1..], rest);
      RoundTrip(v, more + rest);
      ValuesBytes(values, rest);
      ReadValuesStep(EncodeValues(values).out + rest, |values|);
      assert [v] + values[1..] == values;
    }
  }

  // ---------------------------------------------------------------- exactly these values

  lemma {:induction false} DecodedFits(s: bytes)
    ensures Decode(s).Ok? ==> Fits(Decode(s).value) && Typed(Decode(s).value)
    decreases |s|, 2
  {
    if s != [] {
      hide DecodeMarked;
      DecodedBodyFits(s[0], s[1..]);
    }
  }

  lemma {:induction false} DecodedBodyFits(marker: byte, s: bytes)
    ensures DecodeMarked(marker, s).Ok? ==> Fits(DecodeMarked(marker, s).value) && Typed(DecodeMarked(marker, s).value)
    decreases |s|, 3
  {
    hide IsUtf8, ReadProps, ReadEcma, ReadValues;
    if marker == 0x03 {
      ReadPropsFit(s);
    } else if marker == 0x08 && |s| >= 4 {
      ReadEcmaFits(s[4..], U32(s[0], s[1], s[2], s[3]));
    } else if marker == 0x0a && |s| >= 4 {
      ReadValuesFit(s[4..], U32(s[0], s[1], s[2], s[3]));
    }
  }

  lemma {:induction false} ReadPropertyFits(s: bytes)
    ensures var r := ReadProperty(s);
            r.Ok? ==> |r.value.key| <= 0xFFFF && IsUtf8(r.value.key) && Fits(r.value.value) && Typed(r.value.value)
    decreases |s|, 0
  {
    hide Decode, IsUtf8;
    if ReadString(s).Ok? {
      DecodedFits(s[ReadString(s).used..]);
    }
  }

  lemma {:induction false} PropsFitCons(p: Property, ps: seq<Property>)
    requires |p.key| <= 0xFFFF && IsUtf8(p.key) && Fits(p.value) && Typed(p.value)
    requires PropsFit(ps) && PropsTyped(ps)
    ensures PropsFit([p] + ps) && PropsTyped([p] + ps)
  {
    hide Fits, Typed, IsUtf8;
    assert ([p] + ps)[1..] == ps;
  }

  lemma {:induction false} ReadPropsFit(s: bytes)
    ensures ReadProps(s).Ok? ==> PropsFit(ReadProps(s).value) && PropsTyped(ReadProps(s).value)
    decreases |s|, 1
  {
    hide ReadProperty, AtObjectEnd, PropsFit, PropsTyped, Fits, Typed, IsUtf8;
    NothingFits();
    if !AtObjectEnd(s) && ReadProperty(s).Ok? {
      var u := ReadProperty(s).used;
      ReadPropertyFits(s);
      ReadPropsFit(s[u..]);
      if ReadProps(s[u..]).Ok? {
        PropsFitCons(ReadProperty(s).value, ReadProps(s[u..]).value);
      }
    }
  }

  lemma {:induction false} NothingFits()
    ensures PropsFit([]) && PropsTyped([]) && ValuesFit([]) && ValuesTyped([])
  {}

  lemma {:induction false} ReadEcmaFits(s: bytes, n: nat)
    ensures ReadEcma(s, n).Ok? ==>
              && |ReadEcma(s, n).value| == n
              && PropsFit(ReadEcma(s, n).value) && PropsTyped(ReadEcma(s, n).value)
    decreases |s|, 1
  {
    hide ReadProperty, AtObjectEnd, PropsFit, PropsTyped, Fits, Typed, IsUtf8;
    NothingFits();
    if n > 0 && ReadProperty(s).Ok? {
      var u := ReadProperty(s).used;
      ReadPropertyFits(s);
      ReadEcmaFits(s[u..], n - 1);
      if ReadEcma(s[u..], n - 1).Ok? {
        PropsFitCons(ReadProperty(s).value, ReadEcma(s[u..], n - 1).value);
      }
    }
  }

  lemma {:induction false} ReadValuesFit(s: bytes, n: nat)
    ensures ReadValues(s, n).Ok? ==>
              && |ReadValues(s, n).value| == n
              && ValuesFit(ReadValues(s, n).value) && ValuesTyped(ReadValues(s, n).value)
    decreases |s|, 3
  {
    hide Decode, Fits, Typed;
    if n > 0 && Decode(s).Ok? {
      var v, u := Decode(s).value, Decode(s).used;
      DecodedFits(s);
      ReadValuesFit(s[u..], n - 1);
      if ReadValues(s[u..], n - 1).Ok? {
        assert ([v] + ReadValues(s[u..], n - 1).value)[1..] == ReadValues(s[u..], n - 1).value;
      }
    }
  }

  /** A value comes back from its own encoding, whatever follows it, exactly when its sizes fit their fields. */
  lemma {:induction false} RoundTripExactlyWhen(v: Value, rest: bytes)
    requires Typed(v)
    ensures Encode(v).ok && Decode(Encode(v).out + rest) == Ok(v, |Encode(v).out|) <==> Fits(v)
  {
    hide *;
    if Fits(v) {
      RoundTrip(v, rest);
    } else {
      DecodedFits(Encode(v).out + rest);
    }
  }

  /** The only length the encoder checks: that of a short string. */
  predicate StringsFit(v: Value)
    decreases v, 1
  {
    match v
    case String(text) => |text| <= 0xFFFF
    case Object(props) => PropStringsFit(props)
    case EcmaArray(items) => PropStringsFit(items)
    case StrictArray(values) => ValueStringsFit(values)
    case _ => true
  }

  predicate PropStringsFit(props: seq<Property>)
    decreases props, 0
  {
    props == [] || (StringsFit(props[0].value) && PropStringsFit(props[1..]))
  }

  predicate ValueStringsFit(values: seq<Value>)
    decreases values, 0
  {
    values == [] || (StringsFit(values[0]) && ValueStringsFit(values[1..]))
  }

  lemma {:induction false} AcceptedExactlyWhen(v: Value)
    ensures Encode(v).ok <==> StringsFit(v)
    decreases v, 1
  {
    match v
    case Object(props) => PropsAcceptedExactlyWhen(props);
    case EcmaArray(items) => PropsAcceptedExactlyWhen(items);
    case StrictArray(values) => ValuesAcceptedExactlyWhen(values);
    case _ =>
  }

  lemma {:induction false} PropsAcceptedExactlyWhen(props: seq<Property>)
    ensures EncodeProps(props).ok <==> PropStringsFit(props)
    decreases props, 0
  {
    hide Encode, StringsFit;
    if props != [] {
      AcceptedExactlyWhen(props[0].value);
      PropsAcceptedExactlyWhen(props[1..]);
    }
  }

  lemma {:induction false} ValuesAcceptedExactlyWhen(values: seq<Value>)
    ensures EncodeValues(values).ok <==> ValueStringsFit(values)
    decreases values, 0
  {
    hide Encode, StringsFit;
    if values != [] {
      AcceptedExactlyWhen(values[0]);
      ValuesAcceptedExactlyWhen(values[1..]);
    }
  }

  /** The encoder accepts the value, but no context brings it back. */
  ghost predicate LostSilently(v: Value) {
    Encode(v).ok && forall rest :: Decode(Encode(v).out + rest) != Ok(v, |Encode(v).out|)
  }

  /**
   A value is lost silently if and only if its short strings fit but another size does not: a key, a
   count, or a long string, whose lengths are cut to their fields without a check.
   */
  lemma {:induction false} LostSilentlyExactlyWhen(v: Value)
    requires Typed(v)
    ensures LostSilently(v) <==> StringsFit(v) && !Fits(v)
  {
    AcceptedExactlyWhen(v);
    hide Decode, Encode, StringsFit, Fits, Typed;
    RoundTripExactlyWhen(v, []);
    if !Fits(v) {
      forall rest ensures !(Encode(v).ok && Decode(Encode(v).out + rest) == Ok(v, |Encode(v).out|)) {
        RoundTripExactlyWhen(v, rest);
      }
    }
  }

  /** A key of more than 65535 bytes. */
  lemma {:induction false} LongKeyIsLost(key: bytes)
    requires |key| > 0xFFFF && IsUtf8(key)
    ensures LostSilently(Object([Property(key, Null)]))
  {
    var ps := [Property(key, Null)];
    assert ps[0].key == key && ps[0].value == Null && ps[1..] == [];
    assert PropsTyped(ps[1..]) && PropsTyped(ps) && !PropsFit(ps);
    assert PropStringsFit(ps[1..]) && PropStringsFit(ps);
    hide LostSilently;
    LostSilentlyExactlyWhen(Object(ps));
  }

  /** A long string of 2^32 bytes or more. */
  lemma {:induction false} LongTextIsLost(long: bytes)
    requires |long| >= 0x1_0000_0000 && IsUtf8(long)
    ensures LostSilently(LongString(long))
  {
    hide LostSilently, IsUtf8;
    LostSilentlyExactlyWhen(LongString(long));
  }

  /** An array of 2^32 entries or more. */
  lemma {:induction false} LongArraysAreLost(items: seq<Property>, values: seq<Value>)
    requires |items| >= 0x1_0000_0000 && |values| >= 0x1_0000_0000
    requires PropsTyped(items) && PropStringsFit(items) && ValuesTyped(values) && ValueStringsFit(values)
    ensures LostSilently(EcmaArray(items)) && LostSilently(StrictArray(values))
  {
    hide LostSilently, PropsTyped, PropStringsFit, ValuesTyped, ValueStringsFit, PropsFit, ValuesFit;
    LostSilentlyExactlyWhen(EcmaArray(items));
    LostSilentlyExactlyWhen(StrictArray(values));
  }

  /** No encoding is a proper prefix of another: values and what follows them can be told apart. */
  lemma {:induction false} EncodingsArePrefixFree(v: Value, w: Value, a: bytes, b: bytes)
    requires Fits(v) && Typed(v) && Fits(w) && Typed(w)
    requires Encode(v).out + a == Encode(w).out + b
    ensures v == w && a == b
  {
    hide *;
    RoundTrip(v, a);
    RoundTrip(w, b);
    assert a == (Encode(v).out + a)[|Encode(v).out|..];
    assert b == (Encode(w).out + b)[|Encode(w).out|..];
  }

  // ---------------------------------------------------------------- streams of values

  datatype All = All(values: seq<Value>, error: Option<ReadError>)

  function DecodeAll(s: bytes): All
    decreases |s|
  {
    if s == [] then All([], None)
    else match Decode(s)
      case Err(e, _) => All([], Some(e))
      case Ok(v, u) => var r := DecodeAll(s[u..]); All([v] + r.values, r.error)
  }

  /** Decoding everything inverts writing a list of values one after the other. */
  lemma {:induction false} DecodeAllInverts(values: seq<Value>)
    requires ValuesFit(values) && ValuesTyped(values)
    ensures EncodeValues(values).ok && DecodeAll(EncodeValues(values).out) == All(values, None)
    decreases values
  {
    if values != [] {
      hide Encode, Decode, EncodeValues;
      var v, more := values[0], EncodeValues(values[1..]).out;
      DecodeAllInverts(values[1..]);
      RoundTrip(v, more);
      ValuesBytes(values, []);
      var out := EncodeValues(values).out;
      assert out + [] == out && more + [] == more;
      assert [v] + values[1..] == values;
    }
  }

  // ---------------------------------------------------------------- lossy decoding

  /** What the lossy loop does with the bytes: decode a value, or skip one byte. */
  datatype Event = Decoded(value: Value, used: nat) | Skipped
  {
    function Size(): nat { if Decoded? then used else 1 }
  }

  datatype Trace = Trace(events: seq<Event>, error: Option<ReadError>)

  function Push(e: Event, t: Trace): Trace {
    Trace([e] + t.events, t.error)
  }

  /** `streak` bytes in a row have been skipped already; at most `budget` may be. */
  function Lossy(s: bytes, budget: nat, streak: nat): Trace
    decreases |s|
  {
    if s == [] then Trace([], None)
    else match Decode(s)
      case Ok(v, u) => Push(Decoded(v, u), Lossy(s[u..], budget, 0))
      case Err(e, _) =>
        if e.IsRecoverable() && streak < budget then Push(Skipped, Lossy(s[1..], budget, streak + 1))
        else Trace([], Some(e))
  }

  function ValuesOf(events: seq<Event>): seq<Value> {
    if events == [] then []
    else (if events[0].Decoded? then [events[0].value] else []) + ValuesOf(events[1..])
  }

  function SkipsOf(events: seq<Event>): nat {
    if events == [] then 0 else (if events[0].Skipped? then 1 else 0) + SkipsOf(events[1..])
  }

  /** The bytes of the decoded values, one after the other. */
  function SpansOf(events: seq<Event>): nat {
    if events == [] then 0 else (if events[0].Decoded? then events[0].used else 0) + SpansOf(events[1..])
  }

  /** Every event is true to the bytes at its place. */
  predicate Explains(events: seq<Event>, s: bytes)
    decreases events
  {
    events == [] ||
    (TrueTo(events[0], s) && Explains(events[1..], s[events[0].Size()..]))
  }

  lemma {:induction false} EventsCons(e: Event, events: seq<Event>)
    ensures ValuesOf([e] + events) == (if e.Decoded? then [e.value] else []) + ValuesOf(events)
    ensures SkipsOf([e] + events) == (if e.Skipped? then 1 else 0) + SkipsOf(events)
    ensures SpansOf([e] + events) == (if e.Decoded? then e.used else 0) + SpansOf(events)
  {
    assert ([e] + events)[1..] == events;
  }

  predicate TrueTo(e: Event, s: bytes) {
    && 0 < e.Size() <= |s|
    && (e.Decoded? ==> Decode(s) == Ok(e.value, e.used))
    && (e.Skipped? ==> Decode(s).Err? && Decode(s).error.IsRecoverable())
  }

  /** Spans and skips add up to where the trace stopped: the end, or the place of its error. */
  predicate Accounts(s: bytes, t: Trace) {
    var stop := SpansOf(t.events) + SkipsOf(t.events);
    && Explains(t.events, s)
    && stop <= |s|
    && (t.error.None? <==> stop == |s|)
    && (t.error.Some? ==> Decode(s[stop..]).Err? && Decode(s[stop..]).error == t.error.value)
  }

  lemma {:induction false} AccountsPush(s: bytes, e: Event, t: Trace)
    requires TrueTo(e, s) && Accounts(s[e.Size()..], t)
    ensures Accounts(s, Push(e, t))
  {
    hide Decode;
    EventsCons(e, t.events);
    assert ([e] + t.events)[1..] == t.events;
    DropAgain(s, e.Size(), SpansOf(t.events) + SkipsOf(t.events));
  }

  /**
   Spans of decoded values plus skipped bytes account for all input up to the stopping point.
   Without an error that is the end; with one, it is where decoding fails with that error.
   */
  lemma {:induction false} LossyAccounts(s: bytes, budget: nat, streak: nat)
    ensures Accounts(s, Lossy(s, budget, streak))
    decreases |s|
  {
    if s != [] && Decode(s).Ok? {
      hide Decode, Accounts;
      var v, u := Decode(s).value, Decode(s).used;
      LossyAccounts(s[u..], budget, 0);
      AccountsPush(s, Decoded(v, u), Lossy(s[u..], budget, 0));
    } else if s != [] && Decode(s).error.IsRecoverable() && streak < budget {
      hide Decode, Accounts;
      LossyAccounts(s[1..], budget, streak + 1);
      AccountsPush(s, Skipped, Lossy(s[1..], budget, streak + 1));
    } else {
      hide Decode;
      assert s[0..] == s;
    }
  }

  lemma {:induction false} DropAgain(s: bytes, a: nat, b: nat)
    requires a <= |s| && b <= |s| - a
    ensures s[a..][b..] == s[a + b..]
  {}

  /** No more than the budget is skipped before the first value, between two values, and after the last. */
  lemma {:induction false} LossyRespectsBudget(s: bytes, budget: nat, streak: nat)
    requires streak <= budget
    ensures var t := Lossy(s, budget, streak);
            SkipsOf(t.events) + streak <= budget * (|ValuesOf(t.events)| + 1)
    decreases |s|
  {
    hide Decode;
    if s == [] {
    } else if Decode(s).Ok? {
      var u := Decode(s).used;
      LossyRespectsBudget(s[u..], budget, 0);
      var t := Lossy(s[u..], budget, 0);
      EventsCons(Decoded(Decode(s).value, u), t.events);
      BudgetStep(budget, |ValuesOf(t.events)|);
    } else if Decode(s).error.IsRecoverable() && streak < budget {
      LossyRespectsBudget(s[1..], budget, streak + 1);
      EventsCons(Skipped, Lossy(s[1..], budget, streak + 1).events);
    }
  }

  lemma {:induction false} BudgetStep(budget: nat, n: nat)
    ensures budget * (n + 2) == budget * (n + 1) + budget
  {}

  /** Lossy decoding finds at least the values that strict decoding finds, first; with no budget they agree. */
  lemma {:induction false} LossyExtendsStrict(s: bytes, budget: nat, streak: nat)
    ensures DecodeAll(s).values <= ValuesOf(Lossy(s, budget, streak).events)
    ensures budget == 0 ==>
              && SkipsOf(Lossy(s, budget, streak).events) == 0
              && All(ValuesOf(Lossy(s, budget, streak).events), Lossy(s, budget, streak).error) == DecodeAll(s)
    decreases |s|
  {
    hide Decode;
    if s != [] && Decode(s).Ok? {
      var v, u := Decode(s).value, Decode(s).used;
      LossyExtendsStrict(s[u..], budget, 0);
      EventsCons(Decoded(v, u), Lossy(s[u..], budget, 0).events);
    }
  }
}
