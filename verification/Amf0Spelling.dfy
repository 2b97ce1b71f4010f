/** Which bytes the AMF0 decoder takes for which value: exactly, and for every input. */
module Amf0Spelling {
  import opened Bytes
  import opened Amf0
  import opened Amf0RoundTrip

  /**
   A value together with how it is spelled. A boolean may be any byte, true unless it is zero; an
   associative array may be closed by an end marker or left open. Nothing else leaves a choice.
   */
  datatype Spelling =
    | Leaf(value: Value)
    | Truth(b: byte)
    | Obj(props: seq<Entry>)
    | Ecma(items: seq<Entry>, closed: bool)
    | Strict(values: seq<Spelling>)

  datatype Entry = Entry(key: bytes, value: Spelling)

  function Meaning(x: Spelling): Value
    decreases x, 1
  {
    match x
    case Leaf(v) => v
    case Truth(b) => Boolean(b != 0)
    case Obj(props) => Object(MeaningOfEntries(props))
    case Ecma(items, _) => EcmaArray(MeaningOfEntries(items))
    case Strict(values) => StrictArray(MeaningOfAll(values))
  }

  function MeaningOfEntries(es: seq<Entry>): (r: seq<Property>)
    ensures |r| == |es|
    decreases es, 0
  {
    if es == [] then [] else [Property(es[0].key, Meaning(es[0].value))] + MeaningOfEntries(es[1..])
  }

  function MeaningOfAll(xs: seq<Spelling>): (r: seq<Value>)
    ensures |r| == |xs|
    decreases xs, 0
  {
    if xs == [] then [] else [Meaning(xs[0])] + MeaningOfAll(xs[1..])
  }

  function Spell(x: Spelling): bytes
    decreases x, 1
  {
    match x
    case Leaf(v) => Encode(v).out
    case Truth(b) => [0x01, b]
    case Obj(props) => [0x03] + (SpellEntries(props) + [0, 0, 9])
    case Ecma(items, closed) =>
      [0x08] + (U32Bytes(|items| % 0x1_0000_0000) + (SpellEntries(items) + if closed then [0, 0, 9] else []))
    case Strict(values) => [0x0a] + (U32Bytes(|values| % 0x1_0000_0000) + SpellAll(values))
  }

  function SpellEntries(es: seq<Entry>): bytes
    decreases es, 0
  {
    if es == [] then [] else KeyBytes(es[0].key) + (Spell(es[0].value) + SpellEntries(es[1..]))
  }

  function SpellAll(xs: seq<Spelling>): bytes
    decreases xs, 0
  {
    if xs == [] then [] else Spell(xs[0]) + SpellAll(xs[1..])
  }

  predicate IsLeaf(v: Value) {
    !v.Boolean? && !v.Object? && !v.EcmaArray? && !v.StrictArray? && Fits(v) && Typed(v)
  }

  /** The sizes fit, the texts are UTF-8, and no open array is followed by an end marker. */
  predicate Sound(x: Spelling, rest: bytes)
    decreases x, 1
  {
    match x
    case Leaf(v) => IsLeaf(v)
    case Truth(_) => true
    case Obj(props) => SoundEntries(props, [0, 0, 9] + rest)
    case Ecma(items, closed) =>
      && |items| < 0x1_0000_0000 && (closed || !AtObjectEnd(rest))
      && SoundEntries(items, (if closed then [0, 0, 9] else []) + rest)
    case Strict(values) => |values| < 0x1_0000_0000 && SoundAll(values, rest)
  }

  predicate SoundEntries(es: seq<Entry>, rest: bytes)
    decreases es, 0
  {
    es == [] ||
    (&& |es[0].key| <= 0xFFFF && IsUtf8(es[0].key)
     && Sound(es[0].value, SpellEntries(es[1..]) + rest) && SoundEntries(es[1..], rest))
  }

  predicate SoundAll(xs: seq<Spelling>, rest: bytes)
    decreases xs, 0
  {
    xs == [] || (Sound(xs[0], SpellAll(xs[1..]) + rest) && SoundAll(xs[1..], rest))
  }

  // ---------------------------------------------------------------- every sound spelling is read

  lemma {:induction false} SpellingReads(x: Spelling, rest: bytes)
    requires Sound(x, rest)
    ensures Decode(Spell(x) + rest) == Ok(Meaning(x), |Spell(x)|)
    decreases x, 2
  {
    hide Encode, Decode, DecodeMarked, IsUtf8, U32Bytes, Fits, Typed, AtObjectEnd;
    match x
    case Leaf(v) => LeafReads(v, rest);
    case Truth(b) => TruthReads(b, rest);
    case Obj(props) => ObjReads(props, rest);
    case Ecma(items, closed) => EcmaReads(items, closed, rest);
    case Strict(values) => StrictReads(values, rest);
  }

  lemma {:induction false} LeafReads(v: Value, rest: bytes)
    requires IsLeaf(v)
    ensures Decode(Encode(v).out + rest) == Ok(v, |Encode(v).out|)
  {
    hide Encode, Decode;
    RoundTrip(v, rest);
  }

  lemma {:induction false} TruthReads(b: byte, rest: bytes)
    ensures Decode([0x01, b] + rest) == Ok(Boolean(b != 0), 2)
  {
    LeafDecodes(0x01, [b], rest);
    assert [0x01] + [b] + rest == [0x01, b] + rest;
    hide Decode;
  }

  lemma {:induction false} ObjReads(props: seq<Entry>, rest: bytes)
    requires SoundEntries(props, [0, 0, 9] + rest)
    ensures var s := [0x03] + (SpellEntries(props) + [0, 0, 9]);
            Decode(s + rest) == Ok(Object(MeaningOfEntries(props)), |s|)
    decreases props, 1
  {
    hide Decode, DecodeMarked, ReadProps, SoundEntries, SpellEntries, MeaningOfEntries;
    EntriesReadToEnd(props, rest);
    var out := SpellEntries(props);
    LeafDecodes(0x03, out + [0, 0, 9], rest);
    ContainerBody(0, out + ([0, 0, 9] + rest));
    assert (out + [0, 0, 9]) + rest == out + ([0, 0, 9] + rest);
  }

  lemma {:induction false} EcmaReads(items: seq<Entry>, closed: bool, rest: bytes)
    requires |items| < 0x1_0000_0000 && (closed || !AtObjectEnd(rest))
    requires SoundEntries(items, (if closed then [0, 0, 9] else []) + rest)
    ensures var s := [0x08] + (U32Bytes(|items| % 0x1_0000_0000) + (SpellEntries(items) + if closed then [0, 0, 9] else []));
            Decode(s + rest) == Ok(EcmaArray(MeaningOfEntries(items)), |s|)
    decreases items, 1
  {
    hide Decode, DecodeMarked, ReadEcma, SoundEntries, SpellEntries, MeaningOfEntries, U32Bytes, AtObjectEnd;
    var end: bytes := if closed then [0, 0, 9] else [];
    EndReads(closed, rest);
    EntriesReadCounted(items, end + rest, |end|);
    assert |items| % 0x1_0000_0000 == |items|;
    var count, out := U32Bytes(|items|), SpellEntries(items);
    LeafDecodes(0x08, count + (out + end), rest);
    ContainerBody(|items|, out + (end + rest));
    assert (count + (out + end)) + rest == count + (out + (end + rest));
  }

  lemma {:induction false} EndReads(closed: bool, rest: bytes)
    requires closed || !AtObjectEnd(rest)
    ensures var end: bytes := if closed then [0, 0, 9] else []; ReadEcma(end + rest, 0) == Ok([], |end|)
  {
    assert [] + rest == rest;
  }

  lemma {:induction false} StrictReads(values: seq<Spelling>, rest: bytes)
    requires |values| < 0x1_0000_0000 && SoundAll(values, rest)
    ensures var s := [0x0a] + (U32Bytes(|values| % 0x1_0000_0000) + SpellAll(values));
            Decode(s + rest) == Ok(StrictArray(MeaningOfAll(values)), |s|)
    decreases values, 1
  {
    hide Decode, DecodeMarked, ReadValues, SoundAll, SpellAll, MeaningOfAll, U32Bytes;
    AllRead(values, rest);
    assert |values| % 0x1_0000_0000 == |values|;
    var count, out := U32Bytes(|values|), SpellAll(values);
    LeafDecodes(0x0a, count + out, rest);
    ContainerBody(|values|, out + rest);
    assert (count + out) + rest == count + (out + rest);
  }

  lemma {:induction false} EntryReads(e: Entry, rest: bytes)
    requires |e.key| <= 0xFFFF && IsUtf8(e.key) && Sound(e.value, rest)
    ensures var w := KeyBytes(e.key) + (Spell(e.value) + rest);
            && !AtObjectEnd(w)
            && ReadProperty(w) == Ok(Property(e.key, Meaning(e.value)), |KeyBytes(e.key)| + |Spell(e.value)|)
    decreases e, 3
  {
    hide Encode, Decode, IsUtf8, Sound, Spell, Meaning;
    SpellingReads(e.value, rest);
    var v := Spell(e.value) + rest;
    TextRoundTrip(e.key, v);
    assert (KeyBytes(e.key) + v)[2 + |e.key|..] == v;
    ReadStartsWithMarker(v);
    NotAtEnd(e.key, v);
    hide AtObjectEnd, KeyBytes;
  }

  lemma {:induction false} ReadStartsWithMarker(s: bytes)
    requires Decode(s).Ok?
    ensures s != [] && s[0] != 9
  {
    hide ReadProps, ReadEcma, ReadValues;
  }

  lemma {:induction false} NotAtEnd(key: bytes, v: bytes)
    requires |key| <= 0xFFFF && v != [] && v[0] != 9
    ensures !AtObjectEnd(KeyBytes(key) + v)
  {
    U16BytesValue(|key|);
    hide U16Bytes;
    var w := KeyBytes(key) + v;
    assert w[0] == U16Bytes(|key| % 0x1_0000)[0] && w[1] == U16Bytes(|key| % 0x1_0000)[1];
    if key == [] {
      assert w[2] == v[0];
    }
  }

  lemma {:induction false} EntriesAre(es: seq<Entry>, rest: bytes)
    requires es != []
    ensures var k, v, more := KeyBytes(es[0].key), Spell(es[0].value), SpellEntries(es[1..]);
            && SpellEntries(es) + rest == k + (v + (more + rest))
            && |SpellEntries(es)| == |k| + |v| + |more|
            && (SpellEntries(es) + rest)[|k| + |v|..] == more + rest
  {
    hide Spell, KeyBytes;
    var k, v, more := KeyBytes(es[0].key), Spell(es[0].value), SpellEntries(es[1..]);
    assert (k + (v + more)) + rest == k + (v + (more + rest));
  }

  lemma {:induction false} EntriesReadToEnd(es: seq<Entry>, rest: bytes)
    requires SoundEntries(es, [0, 0, 9] + rest)
    ensures ReadProps(SpellEntries(es) + ([0, 0, 9] + rest)) == Ok(MeaningOfEntries(es), |SpellEntries(es)| + 3)
    decreases es, 0
  {
    hide Sound, Spell, Meaning, KeyBytes, ReadProperty, AtObjectEnd, ReadProps, SpellEntries, IsUtf8;
    if es == [] {
      EmptyList(rest);
      NothingSpelled();
    } else {
      var w := SpellEntries(es) + ([0, 0, 9] + rest);
      EntriesReadToEnd(es[1..], rest);
      EntryReads(es[0], SpellEntries(es[1..]) + ([0, 0, 9] + rest));
      EntriesAre(es, [0, 0, 9] + rest);
      ReadListStep(w, 0);
    }
  }

  lemma {:induction false} NothingSpelled()
    ensures SpellEntries([]) == []
  {}

  /** Counted entries, and then whatever an empty list reads off the rest. */
  lemma {:induction false} EntriesReadCounted(es: seq<Entry>, rest: bytes, last: nat)
    requires SoundEntries(es, rest) && ReadEcma(rest, 0) == Ok([], last)
    ensures ReadEcma(SpellEntries(es) + rest, |es|) == Ok(MeaningOfEntries(es), |SpellEntries(es)| + last)
    decreases es, 0
  {
    hide Sound, Spell, Meaning, KeyBytes, ReadProperty, AtObjectEnd, ReadEcma, SpellEntries, IsUtf8;
    if es == [] {
      NothingSpelled();
      assert [] + rest == rest;
    } else {
      EntriesReadCounted(es[1..], rest, last);
      EntryReads(es[0], SpellEntries(es[1..]) + rest);
      EntriesAre(es, rest);
      ReadListStep(SpellEntries(es) + rest, |es|);
    }
  }

  lemma {:induction false} AllRead(xs: seq<Spelling>, rest: bytes)
    requires SoundAll(xs, rest)
    ensures ReadValues(SpellAll(xs) + rest, |xs|) == Ok(MeaningOfAll(xs), |SpellAll(xs)|)
    decreases xs, 0
  {
    hide Sound, Spell, Meaning, Decode;
    if xs == [] {
      assert [] + rest == rest;
    } else {
      var v, more := Spell(xs[0]), SpellAll(xs[1..]);
      AllRead(xs[1..], rest);
      SpellingReads(xs[0], more + rest);
      assert (v + more) + rest == v + (more + rest);
      assert (v + (more + rest))[|v|..] == more + rest;
    }
  }

  // ---------------------------------------------------------------- whatever is read is a sound spelling

  /** These bytes are a spelling of the result, sound before the bytes behind it. */
  ghost predicate Spells(x: Spelling, s: bytes, r: Read<Value>) {
    r.Ok? && r.used <= |s| && Spell(x) == s[..r.used] && Meaning(x) == r.value && Sound(x, s[r.used..])
  }

  ghost predicate SpellsEntries(es: seq<Entry>, end: bytes, s: bytes, r: Read<seq<Property>>) {
    && r.Ok? && r.used <= |s| && SpellEntries(es) + end == s[..r.used]
    && MeaningOfEntries(es) == r.value && SoundEntries(es, end + s[r.used..])
  }

  ghost predicate SpellsAll(xs: seq<Spelling>, s: bytes, r: Read<seq<Value>>) {
    && r.Ok? && r.used <= |s| && SpellAll(xs) == s[..r.used]
    && MeaningOfAll(xs) == r.value && SoundAll(xs, s[r.used..])
  }

  lemma {:induction false} ReadIsSpelled(s: bytes) returns (x: Spelling)
    requires Decode(s).Ok?
    ensures Spells(x, s, Decode(s))
    decreases |s|, 2
  {
    var m, b := s[0], s[1..];
    assert s == [m] + b;
    if m == 0x03 {
      x := ObjIsSpelled(s);
    } else if m == 0x08 {
      x := EcmaIsSpelled(s);
    } else if m == 0x0a {
      x := StrictIsSpelled(s);
    } else if m == 0x01 {
      x := Truth(b[0]);
      hide Spell;
      SpellTruth(b[0]);
      assert s[..2] == [0x01, b[0]];
    } else {
      x := LeafIsSpelled(s);
    }
  }

  lemma {:induction false} SpellTruth(b: byte)
    ensures Spell(Truth(b)) == [0x01, b]
  {}

  lemma {:induction false} LeafIsSpelled(s: bytes) returns (x: Spelling)
    requires Decode(s).Ok? && s[0] !in {0x01, 0x03, 0x08, 0x0a}
    ensures Spells(x, s, Decode(s))
  {
    hide ReadProps, ReadEcma, ReadValues, IsUtf8, U16, U32, U16Bytes, U32Bytes, ReadDate, ReadString, ReadLongString;
    var b, v := s[1..], Decode(s).value;
    x := Leaf(v);
    AfterMarker(s, Decode(s).used - 1);
    if s[0] == 0x02 {
      TextIsSpelled(b);
    } else if s[0] == 0x0b {
      DateIsSpelled(b);
      assert [0x0b] + (v.timestamp + U16Bytes(TwosComplement(v.timezone)))
          == [0x0b] + v.timestamp + U16Bytes(TwosComplement(v.timezone));
    } else if s[0] == 0x0c {
      LongTextIsSpelled(b);
      assert [0x0c] + (U32Bytes(|v.long|) + v.long) == [0x0c] + U32Bytes(|v.long|) + v.long;
    }
  }

  lemma {:induction false} U16Digits(a: byte, b: byte)
    ensures U16Bytes(U16(a, b)) == [a, b]
  {}

  lemma {:induction false} U32BytesOf(a: byte, b: byte, c: byte, d: byte)
    ensures U32Bytes(U32(a, b, c, d)) == [a, b, c, d]
  {
    var n, hi, lo := U32(a, b, c, d), U16(a, b), U16(c, d);
    assert n == hi * 0x1_0000 + lo;
    DivModUnique(n, 0x1_0000, hi, lo);
    DivModUnique(hi, 0x100, a, b);
    DivModUnique(lo, 0x100, c, d);
    assert n % 0x100 == d by {
      DivModUnique(n, 0x100, hi * 0x100 + c, d);
    }
    hide U32, U16;
  }

  lemma {:induction false} TextIsSpelled(b: bytes)
    requires ReadString(b).Ok?
    ensures var t := ReadString(b).value;
            |t| <= 0xFFFF && IsUtf8(t) && ReadString(b).used == 2 + |t| && b[..2 + |t|] == KeyBytes(t)
  {
    hide IsUtf8;
    U16Digits(b[0], b[1]);
    var n := U16(b[0], b[1]);
    hide U16, U16Bytes;
    assert n % 0x1_0000 == n;
    assert b[..2 + n] == [b[0], b[1]] + b[2..2 + n];
  }

  lemma {:induction false} LongTextIsSpelled(b: bytes)
    requires ReadLongString(b).Ok?
    ensures var t := ReadLongString(b).value;
            && |t| < 0x1_0000_0000 && IsUtf8(t) && ReadLongString(b).used == 4 + |t|
            && b[..4 + |t|] == U32Bytes(|t|) + t
  {
    hide IsUtf8;
    U32BytesOf(b[0], b[1], b[2], b[3]);
    var n := U32(b[0], b[1], b[2], b[3]);
    hide U32, U32Bytes;
    assert b[..4 + n] == [b[0], b[1], b[2], b[3]] + b[4..4 + n];
  }

  lemma {:induction false} DateIsSpelled(b: bytes)
    requires ReadDate(b).Ok?
    ensures var v := ReadDate(b).value;
            v.Date? && ReadDate(b).used == 10 && b[..10] == v.timestamp + U16Bytes(TwosComplement(v.timezone))
  {
    U16Digits(b[8], b[9]);
    var tz: int := U16(b[8], b[9]);
    hide U16, U16Bytes;
    assert TwosComplement(if tz >= 0x8000 then tz - 0x1_0000 else tz) == tz;
    assert b[..10] == b[..8] + [b[8], b[9]];
  }

  lemma {:induction false} ObjIsSpelled(s: bytes) returns (x: Spelling)
    requires Decode(s).Ok? && s[0] == 0x03
    ensures Spells(x, s, Decode(s))
    decreases |s|, 1
  {
    var b := s[1..];
    assert Decode(s) == Shift(AsObject(ReadProps(b)), 1);
    var es := PropsAreSpelled(b);
    x := Obj(es);
    hide ReadProps, SpellEntries, SoundEntries, MeaningOfEntries, Decode;
    AfterMarker(s, ReadProps(b).used);
  }

  lemma {:induction false} AfterMarker(s: bytes, u: nat)
    requires 1 + u <= |s|
    ensures s[..1 + u] == [s[0]] + s[1..][..u] && s[1 + u..] == s[1..][u..]
  {}

  lemma {:induction false} CountIs(b: bytes)
    requires |b| >= 4
    ensures var n := U32(b[0], b[1], b[2], b[3]); n % 0x1_0000_0000 == n && U32Bytes(n) == b[..4]
  {
    U32BytesOf(b[0], b[1], b[2], b[3]);
  }

  lemma {:induction false} EcmaIsSpelled(s: bytes) returns (x: Spelling)
    requires Decode(s).Ok? && s[0] == 0x08
    ensures Spells(x, s, Decode(s))
    decreases |s|, 1
  {
    var b := s[1..];
    var n, c := U32(b[0], b[1], b[2], b[3]), b[4..];
    assert Decode(s) == Shift(AsEcmaArray(Shift(ReadEcma(c, n), 4)), 1);
    var es, closed := CountedAreSpelled(c, n);
    x := Ecma(es, closed);
    hide ReadEcma, SpellEntries, SoundEntries, MeaningOfEntries, Decode, U32, U32Bytes, AtObjectEnd, Spell, Meaning, Sound;
    CountIs(b);
    AfterCount(s, ReadEcma(c, n).used);
    EcmaIs(es, closed, s[5 + ReadEcma(c, n).used..]);
  }

  lemma {:induction false} AfterCount(s: bytes, u: nat)
    requires 5 + u <= |s|
    ensures s[..5 + u] == [s[0]] + (s[1..][..4] + s[1..][4..][..u]) && s[5 + u..] == s[1..][4..][u..]
  {}

  lemma {:induction false} EcmaIs(es: seq<Entry>, closed: bool, rest: bytes)
    requires |es| < 0x1_0000_0000
    ensures var x, end := Ecma(es, closed), if closed then [0, 0, 9] else [];
            && Spell(x) == [0x08] + (U32Bytes(|es|) + (SpellEntries(es) + end))
            && Meaning(x) == EcmaArray(MeaningOfEntries(es))
            && (Sound(x, rest) <==> (closed || !AtObjectEnd(rest)) && SoundEntries(es, end + rest))
  {
    hide SpellEntries, SoundEntries, MeaningOfEntries, U32Bytes, AtObjectEnd;
  }

  lemma {:induction false} StrictIsSpelled(s: bytes) returns (x: Spelling)
    requires Decode(s).Ok? && s[0] == 0x0a
    ensures Spells(x, s, Decode(s))
    decreases |s|, 1
  {
    var b := s[1..];
    var n, c := U32(b[0], b[1], b[2], b[3]), b[4..];
    assert Decode(s) == Shift(AsStrictArray(Shift(ReadValues(c, n), 4)), 1);
    var xs := AllAreSpelled(c, n);
    x := Strict(xs);
    CountIs(b);
    hide ReadValues, SpellAll, SoundAll, MeaningOfAll, Decode, U32, U32Bytes;
    AfterCount(s, ReadValues(c, n).used);
  }

  lemma {:induction false} EntryIsSpelled(s: bytes) returns (e: Entry)
    requires ReadProperty(s).Ok?
    ensures var u := ReadProperty(s).used;
            && |e.key| <= 0xFFFF && IsUtf8(e.key) && Sound(e.value, s[u..])
            && s[..u] == KeyBytes(e.key) + Spell(e.value)
            && ReadProperty(s).value == Property(e.key, Meaning(e.value))
    decreases |s|, 0
  {
    hide Decode, IsUtf8, KeyBytes;
    TextIsSpelled(s);
    hide ReadString;
    var k := ReadString(s).used;
    var x := ReadIsSpelled(s[k..]);
    e := Entry(ReadString(s).value, x);
    var u := ReadProperty(s).used;
    assert s[..u] == s[..k] + s[k..][..u - k] && s[u..] == s[k..][u - k..];
  }

  lemma {:induction false} EntryJoins(e: Entry, es: seq<Entry>, end: bytes, s: bytes, u: nat, w: nat)
    requires u + w <= |s| && s[..u] == KeyBytes(e.key) + Spell(e.value) && SpellEntries(es) + end == s[u..][..w]
    ensures SpellEntries([e] + es) + end == s[..u + w]
    ensures Sound(e.value, s[u..]) && SoundEntries(es, end + s[u..][w..]) && |e.key| <= 0xFFFF && IsUtf8(e.key)
            ==> SoundEntries([e] + es, end + s[u + w..])
    ensures MeaningOfEntries([e] + es) == [Property(e.key, Meaning(e.value))] + MeaningOfEntries(es)
  {
    hide Sound, Spell, Meaning, IsUtf8, KeyBytes;
    var k, v, more := KeyBytes(e.key), Spell(e.value), SpellEntries(es);
    assert ([e] + es)[1..] == es;
    assert s[..u + w] == s[..u] + s[u..][..w];
    assert (k + (v + more)) + end == (k + v) + (more + end);
    assert s[u + w..] == s[u..][w..];
    assert more + (end + s[u..][w..]) == s[u..];
  }

  lemma {:induction false} PropsAreSpelled(s: bytes) returns (es: seq<Entry>)
    requires ReadProps(s).Ok?
    ensures SpellsEntries(es, [0, 0, 9], s, ReadProps(s))
    decreases |s|, 1
  {
    hide ReadProperty, Sound, Spell, Meaning, IsUtf8, KeyBytes;
    if AtObjectEnd(s) {
      es := [];
      assert s[..3] == [0, 0, 9];
    } else {
      var u := ReadProperty(s).used;
      var e := EntryIsSpelled(s);
      var more := PropsAreSpelled(s[u..]);
      es := [e] + more;
      hide ReadProps, SpellEntries, SoundEntries, MeaningOfEntries, AtObjectEnd;
      PropsStep(s);
      EntryJoins(e, more, [0, 0, 9], s, u, ReadProps(s[u..]).used);
    }
  }

  lemma {:induction false} PropsStep(s: bytes)
    requires !AtObjectEnd(s) && ReadProps(s).Ok?
    ensures ReadProperty(s).Ok? && ReadProps(s[ReadProperty(s).used..]).Ok?
    ensures var p, u := ReadProperty(s).value, ReadProperty(s).used;
            ReadProps(s) == Cons(p, Shift(ReadProps(s[u..]), u))
  {
    hide ReadProperty;
  }

  lemma {:induction false} CountedStep(s: bytes, n: nat)
    requires n > 0 && ReadEcma(s, n).Ok?
    ensures ReadProperty(s).Ok? && ReadEcma(s[ReadProperty(s).used..], n - 1).Ok?
    ensures var p, u := ReadProperty(s).value, ReadProperty(s).used;
            ReadEcma(s, n) == Cons(p, Shift(ReadEcma(s[u..], n - 1), u))
  {
    hide ReadProperty;
  }

  lemma {:induction false} CountedAreSpelled(s: bytes, n: nat) returns (es: seq<Entry>, closed: bool)
    requires ReadEcma(s, n).Ok?
    ensures |es| == n && SpellsEntries(es, if closed then [0, 0, 9] else [], s, ReadEcma(s, n))
    ensures closed || !AtObjectEnd(s[ReadEcma(s, n).used..])
    decreases |s|, 1
  {
    hide ReadProperty, Sound, Spell, Meaning, IsUtf8, KeyBytes;
    if n == 0 {
      es, closed := [], AtObjectEnd(s);
      assert s[0..] == s && s[..0] == [];
      assert closed ==> s[..3] == [0, 0, 9];
    } else {
      CountedStep(s, n);
      hide ReadEcma;
      var u := ReadProperty(s).used;
      var e := EntryIsSpelled(s);
      var more;
      more, closed := CountedAreSpelled(s[u..], n - 1);
      es := [e] + more;
      hide SpellEntries, SoundEntries, MeaningOfEntries, AtObjectEnd;
      var w := ReadEcma(s[u..], n - 1).used;
      EntryJoins(e, more, if closed then [0, 0, 9] else [], s, u, w);
      assert s[u..][w..] == s[u + w..];
    }
  }

  lemma {:induction false} AllAreSpelled(s: bytes, n: nat) returns (xs: seq<Spelling>)
    requires ReadValues(s, n).Ok?
    ensures |xs| == n && SpellsAll(xs, s, ReadValues(s, n))
    decreases |s|, 3
  {
    hide Decode, Sound, Spell, Meaning;
    if n == 0 {
      xs := [];
      assert s[0..] == s && s[..0] == [];
    } else {
      var u := Decode(s).used;
      var x := ReadIsSpelled(s);
      var more := AllAreSpelled(s[u..], n - 1);
      xs := [x] + more;
      assert ReadValues(s, n) == Cons(Decode(s).value, Shift(ReadValues(s[u..], n - 1), u));
      hide ReadValues, SpellAll, SoundAll, MeaningOfAll;
      ValueJoins(x, more, s, u, ReadValues(s[u..], n - 1).used);
    }
  }

  lemma {:induction false} ValueJoins(x: Spelling, xs: seq<Spelling>, s: bytes, u: nat, w: nat)
    requires u + w <= |s| && s[..u] == Spell(x) && SpellAll(xs) == s[u..][..w]
    ensures SpellAll([x] + xs) == s[..u + w]
    ensures Sound(x, s[u..]) && SoundAll(xs, s[u..][w..]) ==> SoundAll([x] + xs, s[u + w..])
    ensures MeaningOfAll([x] + xs) == [Meaning(x)] + MeaningOfAll(xs)
  {
    hide Sound, Spell, Meaning;
    assert ([x] + xs)[1..] == xs;
    assert s[..u + w] == s[..u] + s[u..][..w] && s[u + w..] == s[u..][w..];
    assert SpellAll(xs) + s[u..][w..] == s[u..];
  }

  /** The decoder takes a value off the front of some bytes if and only if a sound spelling of it stands there. */
  lemma {:induction false} DecodesExactlyWhen(s: bytes, v: Value, used: nat)
    requires used <= |s|
    ensures Decode(s) == Ok(v, used) <==>
              exists x: Spelling :: Spell(x) == s[..used] && Meaning(x) == v && Sound(x, s[used..])
  {
    hide Decode, Spell, Meaning, Sound;
    if Decode(s) == Ok(v, used) {
      var x := ReadIsSpelled(s);
    }
    if x: Spelling :| Spell(x) == s[..used] && Meaning(x) == v && Sound(x, s[used..]) {
      SpellingReads(x, s[used..]);
      assert s[..used] + s[used..] == s;
    }
  }

  /** The first byte of an encoding tells its type: section 2.1 of the AMF0 specification. */
  lemma {:induction false} MarkersAre(v: Value)
    requires Encode(v).out != []
    ensures Encode(v).out[0] ==
            match v
            case Number(_) => 0 case Boolean(_) => 1 case String(_) => 2 case Object(_) => 3 case Null => 5
            case Undefined => 6 case EcmaArray(_) => 8 case StrictArray(_) => 10 case Date(_, _) => 11
            case LongString(_) => 12
  {
    hide EncodeProps, EncodeValues;
  }
}
