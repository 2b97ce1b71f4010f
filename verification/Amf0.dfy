/**
 AMF0 values (amf0_spec_121207, sections 2.2 to 2.14), their encoding, and decoding as a
 function of the bytes that are left.
 */
module Amf0 {
  import opened Bytes

  /** A double is carried as its eight big-endian bytes. */
  type F64 = s: bytes | |s| == 8 witness [0, 0, 0, 0, 0, 0, 0, 0]
  type i16 = x: int | -0x8000 <= x < 0x8000

  datatype Property = Property(key: bytes, value: Value)

  datatype Value =
    | Number(bits: F64)
    | Boolean(b: bool)
    | String(text: bytes)
    | Object(props: seq<Property>)
    | Null
    | Undefined
    | EcmaArray(items: seq<Property>)
    | StrictArray(values: seq<Value>)
    | Date(timestamp: F64, timezone: i16)
    | LongString(long: bytes)

  // ---------------------------------------------------------------- UTF-8

  predicate Continues(b: byte) { 0x80 <= b < 0xC0 }

  /** The length of the well-formed UTF-8 sequence at the head of `s`, zero when there is none. */
  function Utf8Length(s: bytes): (n: nat)
    ensures n <= |s|
  {
    if s == [] then 0
    else if s[0] < 0x80 then 1
    else if |s| >= 2 && 0xC2 <= s[0] < 0xE0 && Continues(s[1]) then 2
    else if |s| >= 3 && 0xE0 <= s[0] < 0xF0 && Continues(s[1]) && Continues(s[2])
         && (s[0] == 0xE0 ==> s[1] >= 0xA0) && (s[0] == 0xED ==> s[1] < 0xA0) then 3
    else if |s| >= 4 && 0xF0 <= s[0] <= 0xF4 && Continues(s[1]) && Continues(s[2]) && Continues(s[3])
         && (s[0] == 0xF0 ==> s[1] >= 0x90) && (s[0] == 0xF4 ==> s[1] < 0x90) then 4
    else 0
  }

  predicate IsUtf8(s: bytes)
    decreases |s|
  {
    s == [] || (Utf8Length(s) > 0 && IsUtf8(s[Utf8Length(s)..]))
  }

  // ---------------------------------------------------------------- encoding

  /** What an encoder wrote, and whether it got to the end; a string over 65535 bytes stops it. */
  datatype Written = Written(out: bytes, ok: bool)

  function Then(a: Written, b: Written): Written {
    if a.ok then Written(a.out + b.out, b.ok) else a
  }

  function Wrote(out: bytes): Written {
    Written(out, true)
  }

  /** A length cut to 16 bits, then the text. */
  function KeyBytes(key: bytes): bytes {
    U16Bytes(|key| % 0x1_0000) + key
  }

  function TwosComplement(x: i16): u16 {
    if x < 0 then x + 0x1_0000 else x
  }

  const ObjectEnd: bytes := [0, 0, 9]

  function Encode(v: Value): Written
    decreases v, 1
  {
    match v
    case Number(bits) => Wrote([0x00] + bits)
    case Boolean(b) => Wrote([0x01, if b then 1 else 0])
    case String(text) => if |text| > 0xFFFF then Written([], false) else Wrote([0x02] + KeyBytes(text))
    case Object(props) => Then(Wrote([0x03]), Then(EncodeProps(props), Wrote(ObjectEnd)))
    case Null => Wrote([0x05])
    case Undefined => Wrote([0x06])
    case EcmaArray(items) =>
      Then(Wrote([0x08] + U32Bytes(|items| % 0x1_0000_0000)), Then(EncodeProps(items), Wrote(ObjectEnd)))
    case StrictArray(values) =>
      Then(Wrote([0x0a] + U32Bytes(|values| % 0x1_0000_0000)), EncodeValues(values))
    case Date(timestamp, timezone) => Wrote([0x0b] + timestamp + U16Bytes(TwosComplement(timezone)))
    case LongString(long) => Wrote([0x0c] + U32Bytes(|long| % 0x1_0000_0000) + long)
  }

  function EncodeProps(props: seq<Property>): Written
    decreases props, 0
  {
    if props == [] then Wrote([])
    else Then(Wrote(KeyBytes(props[0].key)), Then(Encode(props[0].value), EncodeProps(props[1..])))
  }

  function EncodeValues(values: seq<Value>): Written
    decreases values, 0
  {
    if values == [] then Wrote([]) else Then(Encode(values[0]), EncodeValues(values[1..]))
  }

  // ---------------------------------------------------------------- decoding

  datatype ReadError = Eof | UnknownMarker(b: byte) | UnsupportedType(marker: byte) | BadUtf8
  {
    predicate IsRecoverable() { UnknownMarker? || UnsupportedType? }
  }

  /** A result, and how many bytes were read before it was reached. */
  datatype Read<+T> = Ok(value: T, used: nat) | Err(error: ReadError, used: nat)

  function ReadBytes(s: bytes, n: nat): (r: Read<bytes>)
    ensures r.used <= |s|
    ensures r.Ok? ==> r.used == n && |r.value| == n
  {
    if n > |s| then Err(Eof, 0) else Ok(s[..n], n)
  }

  /** A UTF-8 text of a known length after a length field of `field` bytes. */
  function ReadText(s: bytes, field: nat, n: nat): (r: Read<bytes>)
    requires field <= |s|
    ensures field <= r.used <= |s|
  {
    if field + n > |s| then Err(Eof, field)
    else if !IsUtf8(s[field..field + n]) then Err(BadUtf8, field + n)
    else Ok(s[field..field + n], field + n)
  }

  function ReadString(s: bytes): (r: Read<bytes>)
    ensures r.used <= |s| && (r.Ok? ==> r.used >= 2)
  {
    if |s| < 2 then Err(Eof, 0) else ReadText(s, 2, U16(s[0], s[1]))
  }

  function ReadLongString(s: bytes): (r: Read<bytes>)
    ensures r.used <= |s|
  {
    if |s| < 4 then Err(Eof, 0) else ReadText(s, 4, U32(s[0], s[1], s[2], s[3]))
  }

  function ReadDate(s: bytes): (r: Read<Value>)
    ensures r.used <= |s|
  {
    if |s| < 8 then Err(Eof, 0)
    else if |s| < 10 then Err(Eof, 8)
    else
      var tz := U16(s[8], s[9]);
      Ok(Date(s[..8], if tz >= 0x8000 then tz - 0x1_0000 else tz), 10)
  }

  predicate AtObjectEnd(s: bytes) {
    |s| >= 3 && s[0] == 0 && s[1] == 0 && s[2] == 9
  }

  /** Moves a result past `k` bytes already read. */
  function Shift<T>(r: Read<T>, k: nat): Read<T> {
    match r
    case Ok(v, u) => Ok(v, k + u)
    case Err(e, u) => Err(e, k + u)
  }

  function AsNumber(r: Read<bytes>): Read<Value>
    requires r.Ok? ==> |r.value| == 8
  {
    match r case Ok(v, u) => Ok(Number(v), u) case Err(e, u) => Err(e, u)
  }

  function AsString(r: Read<bytes>): Read<Value> {
    match r case Ok(v, u) => Ok(String(v), u) case Err(e, u) => Err(e, u)
  }

  function AsLongString(r: Read<bytes>): Read<Value> {
    match r case Ok(v, u) => Ok(LongString(v), u) case Err(e, u) => Err(e, u)
  }

  function AsObject(r: Read<seq<Property>>): Read<Value> {
    match r case Ok(v, u) => Ok(Object(v), u) case Err(e, u) => Err(e, u)
  }

  function AsEcmaArray(r: Read<seq<Property>>): Read<Value> {
    match r case Ok(v, u) => Ok(EcmaArray(v), u) case Err(e, u) => Err(e, u)
  }

  function AsStrictArray(r: Read<seq<Value>>): Read<Value> {
    match r case Ok(v, u) => Ok(StrictArray(v), u) case Err(e, u) => Err(e, u)
  }

  function Cons<T>(x: T, r: Read<seq<T>>): Read<seq<T>> {
    match r
    case Ok(xs, u) => Ok([x] + xs, u)
    case Err(e, u) => Err(e, u)
  }

  function Decode(s: bytes): (r: Read<Value>)
    ensures r.used <= |s| && (r.Ok? ==> r.used > 0)
    decreases |s|, 2
  {
    if s == [] then Err(Eof, 0) else Shift(DecodeMarked(s[0], s[1..]), 1)
  }

  /** The value after its marker byte. */
  function DecodeMarked(marker: byte, s: bytes): (r: Read<Value>)
    ensures r.used <= |s|
    decreases |s|, 3
  {
    if marker == 0x00 then AsNumber(ReadBytes(s, 8))
    else if marker == 0x01 then (if s == [] then Err(Eof, 0) else Ok(Boolean(s[0] > 0), 1))
    else if marker == 0x02 then AsString(ReadString(s))
    else if marker == 0x03 then AsObject(ReadProps(s))
    else if marker == 0x05 then Ok(Null, 0)
    else if marker == 0x06 then Ok(Undefined, 0)
    else if marker == 0x08 then (if |s| < 4 then Err(Eof, 0)
                                 else AsEcmaArray(Shift(ReadEcma(s[4..], U32(s[0], s[1], s[2], s[3])), 4)))
    else if marker == 0x0a then (if |s| < 4 then Err(Eof, 0)
                                 else AsStrictArray(Shift(ReadValues(s[4..], U32(s[0], s[1], s[2], s[3])), 4)))
    else if marker == 0x0b then ReadDate(s)
    else if marker == 0x0c then AsLongString(ReadLongString(s))
    else if marker <= 0x11 then Err(UnsupportedType(marker), 0)
    else Err(UnknownMarker(marker), 0)
  }

  /** One property: a key and a value. */
  function ReadProperty(s: bytes): (r: Read<Property>)
    ensures r.used <= |s| && (r.Ok? ==> r.used > 0)
    decreases |s|, 0
  {
    match ReadString(s)
    case Err(e, u) => Err(e, u)
    case Ok(key, u) =>
      match Decode(s[u..])
      case Err(e, w) => Err(e, u + w)
      case Ok(v, w) => Ok(Property(key, v), u + w)
  }

  /** Properties up to the object-end marker. */
  function ReadProps(s: bytes): (r: Read<seq<Property>>)
    ensures r.used <= |s|
    decreases |s|, 1
  {
    if AtObjectEnd(s) then Ok([], 3)
    else match ReadProperty(s)
      case Err(e, u) => Err(e, u)
      case Ok(p, u) => Cons(p, Shift(ReadProps(s[u..]), u))
  }

  /** `n` properties and an optional object-end marker. */
  function ReadEcma(s: bytes, n: nat): (r: Read<seq<Property>>)
    ensures r.used <= |s|
    decreases |s|, 1
  {
    if n == 0 then Ok([], if AtObjectEnd(s) then 3 else 0)
    else match ReadProperty(s)
      case Err(e, u) => Err(e, u)
      case Ok(p, u) => Cons(p, Shift(ReadEcma(s[u..], n - 1), u))
  }

  /** `n` values. */
  function ReadValues(s: bytes, n: nat): (r: Read<seq<Value>>)
    ensures r.used <= |s|
    decreases |s|, 3
  {
    if n == 0 then Ok([], 0)
    else match Decode(s)
      case Err(e, u) => Err(e, u)
      case Ok(v, u) => Cons(v, Shift(ReadValues(s[u..], n - 1), u))
  }
}
