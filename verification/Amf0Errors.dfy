/** What the AMF0 decoder's errors mean: which end with more bytes, and which a lossy decoder may skip. */
module Amf0Errors {
  import opened Bytes
  import opened Amf0
  import opened Amf0RoundTrip

  // ---------------------------------------------------------------- more bytes

  /** It asks for more bytes. */
  predicate Waits<T>(r: Read<T>) { r.Err? && r.error == Eof }

  /** It may have taken an array for open whose end marker has not come yet. */
  predicate Loose<T>(s: bytes, r: Read<T>) {
    r.Ok? && r.used <= |s| && |s[r.used..]| < 3 && s[r.used..] <= [0, 0, 9]
  }

  lemma {:induction false} ShortWaits(s: bytes)
    requires |s| < 3 && s <= [0, 0, 9]
    ensures !AtObjectEnd(s) && Waits(Decode(s)) && Waits(ReadProperty(s))
  {
    hide *;
    if s == [] {
      NothingWaits(s);
    } else if |s| == 1 {
      OneWaits(s);
    } else {
      TwoWait(s);
    }
  }

  lemma {:induction false} NothingWaits(s: bytes)
    requires s == []
    ensures !AtObjectEnd(s) && Waits(Decode(s)) && Waits(ReadProperty(s))
  {
    hide DecodeMarked;
  }

  lemma {:induction false} ZeroWaits(s: bytes)
    requires 1 <= |s| < 9 && s[0] == 0
    ensures Waits(Decode(s))
  {
    hide ReadProps, ReadEcma, ReadValues;
  }

  lemma {:induction false} OneWaits(s: bytes)
    requires |s| == 1 && s <= [0, 0, 9]
    ensures !AtObjectEnd(s) && Waits(Decode(s)) && Waits(ReadProperty(s))
  {
    assert s[0] == [0, 0, 9][0];
    ZeroWaits(s);
    hide Decode;
  }

  lemma {:induction false} TwoWait(s: bytes)
    requires |s| == 2 && s <= [0, 0, 9]
    ensures !AtObjectEnd(s) && Waits(Decode(s)) && Waits(ReadProperty(s))
  {
    assert s[0] == [0, 0, 9][0] && s[1] == [0, 0, 9][1];
    ZeroWaits(s);
    NothingWaits(s[2..]);
    assert s[2..2] == [];
    assert ReadString(s) == Ok([], 2);
    hide Decode, ReadString;
  }

  lemma {:induction false} DropMore(s: bytes, t: bytes, u: nat)
    requires u <= |s|
    ensures (s + t)[u..] == s[u..] + t
  {}

  /** More bytes change a result only if it asked for them, or took an array for open at the end of the input. */
  lemma {:induction false} MoreBytesChangeNothing(s: bytes, t: bytes)
    ensures Waits(Decode(s)) || Loose(s, Decode(s)) || Decode(s + t) == Decode(s)
    decreases |s|, 2
  {
    if s != [] {
      var m, b := s[0], s[1..];
      assert (s + t)[0] == m && (s + t)[1..] == b + t;
      if m == 0x03 {
        MoreForProps(b, t);
        hide ReadProps;
      } else if m == 0x08 || m == 0x0a {
        if |b| >= 4 {
          CountStays(b, t);
          hide U32;
          var n := U32(b[0], b[1], b[2], b[3]);
          if m == 0x08 {
            MoreForCounted(b[4..], t, n);
            assert Loose(b[4..], ReadEcma(b[4..], n)) ==> s[5 + ReadEcma(b[4..], n).used..] == b[4..][ReadEcma(b[4..], n).used..];
            hide ReadEcma;
          } else {
            MoreForValues(b[4..], t, n);
            assert Loose(b[4..], ReadValues(b[4..], n)) ==> s[5 + ReadValues(b[4..], n).used..] == b[4..][ReadValues(b[4..], n).used..];
            hide ReadValues;
          }
        }
      } else {
        MoreForLeaf(m, b, t);
      }
    }
  }

  lemma {:induction false} CountStays(b: bytes, t: bytes)
    requires |b| >= 4
    ensures |b + t| >= 4 && (b + t)[4..] == b[4..] + t
    ensures U32((b + t)[0], (b + t)[1], (b + t)[2], (b + t)[3]) == U32(b[0], b[1], b[2], b[3])
  {}

  lemma {:induction false} MoreForText(b: bytes, t: bytes, field: nat, n: nat)
    requires field <= |b|
    ensures Waits(ReadText(b, field, n)) || ReadText(b + t, field, n) == ReadText(b, field, n)
  {
    hide IsUtf8;
    if field + n <= |b| {
      assert (b + t)[field..field + n] == b[field..field + n];
    }
  }

  lemma {:induction false} MoreForLeaf(m: byte, b: bytes, t: bytes)
    requires m !in {0x03, 0x08, 0x0a}
    ensures Waits(DecodeMarked(m, b)) || DecodeMarked(m, b + t) == DecodeMarked(m, b)
  {
    hide IsUtf8, U16, U32, ReadText, ReadProps, ReadEcma, ReadValues;
    if m == 0x00 && |b| >= 8 {
      assert (b + t)[..8] == b[..8];
    } else if m == 0x02 && |b| >= 2 {
      MoreForText(b, t, 2, U16(b[0], b[1]));
    } else if m == 0x0b && |b| >= 10 {
      assert (b + t)[..8] == b[..8];
    } else if m == 0x0c && |b| >= 4 {
      MoreForText(b, t, 4, U32(b[0], b[1], b[2], b[3]));
    }
  }

  lemma {:induction false} MoreForProperty(s: bytes, t: bytes)
    ensures Waits(ReadProperty(s)) || Loose(s, ReadProperty(s)) || ReadProperty(s + t) == ReadProperty(s)
    decreases |s|, 0
  {
    hide Decode, ReadText, U16;
    if |s| >= 2 {
      MoreForText(s, t, 2, U16(s[0], s[1]));
      if ReadString(s).Ok? {
        var u := ReadString(s).used;
        MoreBytesChangeNothing(s[u..], t);
        DropMore(s, t, u);
        hide ReadString;
        if Loose(s[u..], Decode(s[u..])) {
          assert s[u..][Decode(s[u..]).used..] == s[u + Decode(s[u..]).used..];
        }
      }
    }
  }

  lemma {:induction false} EndStays(s: bytes, t: bytes)
    ensures AtObjectEnd(s) ==> AtObjectEnd(s + t)
    ensures !AtObjectEnd(s) && AtObjectEnd(s + t) ==> |s| < 3 && s <= [0, 0, 9]
  {
    if |s| < 3 && AtObjectEnd(s + t) {
      assert (s + t)[..3] == [0, 0, 9];
      assert s == (s + t)[..|s|];
    }
  }

  lemma {:induction false} MoreForProps(s: bytes, t: bytes)
    ensures Waits(ReadProps(s)) || ReadProps(s + t) == ReadProps(s)
    decreases |s|, 1
  {
    hide ReadProperty, AtObjectEnd;
    EndStays(s, t);
    if !AtObjectEnd(s) {
      if AtObjectEnd(s + t) {
        ShortWaits(s);
      } else {
        MoreForProperty(s, t);
        if ReadProperty(s).Ok? {
          var u := ReadProperty(s).used;
          DropMore(s, t, u);
          if Loose(s, ReadProperty(s)) {
            ShortWaits(s[u..]);
          } else {
            MoreForProps(s[u..], t);
          }
        }
      }
    }
  }

  lemma {:induction false} MoreForCounted(s: bytes, t: bytes, n: nat)
    ensures Waits(ReadEcma(s, n)) || Loose(s, ReadEcma(s, n)) || ReadEcma(s + t, n) == ReadEcma(s, n)
    decreases |s|, 1
  {
    hide ReadProperty, AtObjectEnd;
    if n == 0 {
      EndStays(s, t);
      assert s[0..] == s;
    } else {
      MoreForProperty(s, t);
      if ReadProperty(s).Ok? {
        var u := ReadProperty(s).used;
        DropMore(s, t, u);
        if Loose(s, ReadProperty(s)) && n > 1 {
          ShortWaits(s[u..]);
        } else if Loose(s, ReadProperty(s)) {
          ShortWaits(s[u..]);
          assert ReadEcma(s[u..], 0) == Ok([], 0);
        } else {
          MoreForCounted(s[u..], t, n - 1);
          LooseShifts(s, u, ReadEcma(s[u..], n - 1));
        }
      }
    }
  }

  lemma {:induction false} LooseShifts<T>(s: bytes, u: nat, r: Read<T>)
    requires u <= |s|
    ensures Loose(s[u..], r) ==> u + r.used <= |s| && |s[u + r.used..]| < 3 && s[u + r.used..] <= [0, 0, 9]
  {
    if Loose(s[u..], r) {
      assert s[u..][r.used..] == s[u + r.used..];
    }
  }

  lemma {:induction false} MoreForValues(s: bytes, t: bytes, n: nat)
    ensures Waits(ReadValues(s, n)) || Loose(s, ReadValues(s, n)) || ReadValues(s + t, n) == ReadValues(s, n)
    decreases |s|, 3
  {
    hide Decode;
    if n > 0 {
      MoreBytesChangeNothing(s, t);
      if Decode(s).Ok? {
        var u := Decode(s).used;
        DropMore(s, t, u);
        if Loose(s, Decode(s)) && n > 1 {
          ShortWaits(s[u..]);
        } else if Loose(s, Decode(s)) {
          assert ReadValues(s[u..], 0) == Ok([], 0);
        } else {
          MoreForValues(s[u..], t, n - 1);
          LooseShifts(s, u, ReadValues(s[u..], n - 1));
        }
      }
    }
  }

  /** An encoding cut anywhere asks for more, or has lost no more than an end marker. */
  lemma {:induction false} TruncatedWaits(v: Value, k: nat)
    requires Fits(v) && Typed(v) && k < |Encode(v).out|
    ensures var s := Encode(v).out[..k]; Waits(Decode(s)) || Loose(s, Decode(s))
  {
    hide *;
    var out := Encode(v).out;
    RoundTrip(v, []);
    assert out + [] == out && out[..k] + out[k..] == out;
    MoreBytesChangeNothing(out[..k], out[k..]);
    UsedIsThere(out[..k]);
  }

  lemma {:induction false} UsedIsThere(s: bytes)
    ensures Decode(s).used <= |s|
  {}

  // ---------------------------------------------------------------- skipping

  /** The markers of the types that can be decoded. */
  const Supported: set<byte> := {0x00, 0x01, 0x02, 0x03, 0x05, 0x06, 0x08, 0x0a, 0x0b, 0x0c}

  /** A byte that is no such marker is skipped, as long as the budget lasts. */
  lemma {:induction false} LossySkipsMarkers(b: byte, s: bytes, budget: nat, streak: nat)
    requires b !in Supported
    ensures Decode([b] + s) == Err(if b <= 0x11 then UnsupportedType(b) else UnknownMarker(b), 1)
    ensures Lossy([b] + s, budget, streak) ==
            if streak < budget then Push(Skipped, Lossy(s, budget, streak + 1))
            else Trace([], Some(if b <= 0x11 then UnsupportedType(b) else UnknownMarker(b)))
  {
    assert ([b] + s)[1..] == s;
    hide ReadProps, ReadEcma, ReadValues;
  }

  /** Input that asks for more bytes, or holds a bad text, is not skipped: decoding stops there. */
  lemma {:induction false} LossyStops(s: bytes, budget: nat, streak: nat)
    requires s != [] && Decode(s).Err? && (Decode(s).error == Eof || Decode(s).error == BadUtf8)
    ensures Lossy(s, budget, streak) == Trace([], Some(Decode(s).error))
  {
    hide Decode;
  }

  lemma {:induction false} BadTextIsAnError(text: bytes, rest: bytes)
    requires |text| <= 0xFFFF && !IsUtf8(text)
    ensures Decode([0x02] + KeyBytes(text) + rest) == Err(BadUtf8, 3 + |text|)
  {
    hide IsUtf8;
    LeafDecodes(0x02, KeyBytes(text), rest);
    U16BytesValue(|text|);
    hide U16, U16Bytes, Decode;
    var w := KeyBytes(text) + rest;
    assert |text| % 0x1_0000 == |text|;
    assert w[0] == U16Bytes(|text|)[0] && w[1] == U16Bytes(|text|)[1] && w[2..2 + |text|] == text;
  }

  /** The byte an error names. */
  function Named(e: ReadError): byte
    requires e.UnknownMarker? || e.UnsupportedType?
  {
    if e.UnknownMarker? then e.b else e.marker
  }

  /** A recoverable error is about the last byte read, which is no supported marker. */
  predicate Blames<T>(s: bytes, r: Read<T>) {
    r.Err? && r.error.IsRecoverable() ==>
      && (r.error.UnknownMarker? || r.error.UnsupportedType?)
      && 0 < r.used <= |s| && s[r.used - 1] == Named(r.error) && s[r.used - 1] !in Supported
  }

  lemma {:induction false} ErrorsBlame(s: bytes)
    ensures Blames(s, Decode(s))
    decreases |s|, 2
  {
    if s != [] {
      var m, b := s[0], s[1..];
      if m == 0x03 {
        PropsBlame(b);
        hide ReadProps;
      } else if m == 0x08 && |b| >= 4 {
        CountedBlame(b[4..], U32(b[0], b[1], b[2], b[3]));
        hide ReadEcma, U32;
      } else if m == 0x0a && |b| >= 4 {
        AllBlame(b[4..], U32(b[0], b[1], b[2], b[3]));
        hide ReadValues, U32;
      } else {
        hide ReadProps, ReadEcma, ReadValues, IsUtf8, U16, U32;
      }
    }
  }

  lemma {:induction false} PropertyBlames(s: bytes)
    ensures Blames(s, ReadProperty(s))
    decreases |s|, 0
  {
    hide Decode, IsUtf8, U16;
    if ReadString(s).Ok? {
      ErrorsBlame(s[ReadString(s).used..]);
    }
  }

  lemma {:induction false} PropsBlame(s: bytes)
    ensures Blames(s, ReadProps(s))
    decreases |s|, 1
  {
    hide ReadProperty;
    PropertyBlames(s);
    if !AtObjectEnd(s) && ReadProperty(s).Ok? {
      PropsBlame(s[ReadProperty(s).used..]);
    }
  }

  lemma {:induction false} CountedBlame(s: bytes, n: nat)
    ensures Blames(s, ReadEcma(s, n))
    decreases |s|, 1
  {
    hide ReadProperty;
    PropertyBlames(s);
    if n > 0 && ReadProperty(s).Ok? {
      CountedBlame(s[ReadProperty(s).used..], n - 1);
    }
  }

  lemma {:induction false} AllBlame(s: bytes, n: nat)
    ensures Blames(s, ReadValues(s, n))
    decreases |s|, 3
  {
    hide Decode;
    if n > 0 {
      ErrorsBlame(s);
      if Decode(s).Ok? {
        AllBlame(s[Decode(s).used..], n - 1);
      }
    }
  }
}
