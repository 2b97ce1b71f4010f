/** The UTF-8 test of the AMF0 decoder against the encoding of code points: section 3 of RFC 3629. */
module Utf8 {
  import opened Bytes
  import opened Amf0

  /** A Unicode scalar value: a code point that is no surrogate. */
  type scalar = c: int | 0 <= c < 0xD800 || 0xE000 <= c <= 0x10FFFF

  function Scalar(c: scalar): bytes {
    if c < 0x80 then [c]
    else if c < 0x800 then [0xC0 + c / 0x40, 0x80 + c % 0x40]
    else if c < 0x1_0000 then [0xE0 + c / 0x1000, 0x80 + c / 0x40 % 0x40, 0x80 + c % 0x40]
    else [0xF0 + c / 0x4_0000, 0x80 + c / 0x1000 % 0x40, 0x80 + c / 0x40 % 0x40, 0x80 + c % 0x40]
  }

  function Text(cs: seq<scalar>): bytes {
    if cs == [] then [] else Scalar(cs[0]) + Text(cs[1..])
  }

  lemma {:induction false} ScalarIsUtf8(c: scalar, rest: bytes)
    ensures Utf8Length(Scalar(c) + rest) == |Scalar(c)| > 0
  {
    var s := Scalar(c) + rest;
    assert forall i :: 0 <= i < |Scalar(c)| ==> s[i] == Scalar(c)[i];
  }

  lemma {:induction false} TextIsUtf8(cs: seq<scalar>)
    ensures IsUtf8(Text(cs))
  {
    hide Scalar, Utf8Length;
    if cs != [] {
      ScalarIsUtf8(cs[0], Text(cs[1..]));
      assert (Scalar(cs[0]) + Text(cs[1..]))[|Scalar(cs[0])|..] == Text(cs[1..]);
      TextIsUtf8(cs[1..]);
    }
  }

  /** The code point at the head of a well-formed text. */
  function CodePoint(s: bytes): (c: scalar)
    requires Utf8Length(s) > 0
  {
    match Utf8Length(s)
    case 1 => s[0]
    case 2 => Join(s[0] - 0xC0, s[1])
    case 3 => Join(Join(s[0] - 0xE0, s[1]), s[2])
    case _ => Join(Join(Join(s[0] - 0xF0, s[1]), s[2]), s[3])
  }

  /** Six more bits, from a continuation byte. */
  function Join(high: nat, b: byte): nat
    requires Continues(b)
  {
    high * 0x40 + b - 0x80
  }

  lemma {:induction false} JoinParts(high: nat, b: byte)
    requires Continues(b)
    ensures Join(high, b) / 0x40 == high && Join(high, b) % 0x40 == b - 0x80
  {}

  lemma {:induction false} Wider(c: nat)
    ensures c / 0x1000 == c / 0x40 / 0x40 && c / 0x4_0000 == c / 0x40 / 0x40 / 0x40
  {}

  lemma {:induction false} ScalarOfCodePoint(s: bytes)
    requires Utf8Length(s) > 0
    ensures Scalar(CodePoint(s)) == s[..Utf8Length(s)]
  {
    var n := Utf8Length(s);
    if n == 1 {
      assert s[..1] == [s[0]];
    } else if n == 2 {
      TwoBytes(s[0], s[1]);
      hide Join;
      assert s[..2] == [s[0], s[1]];
    } else if n == 3 {
      ThreeBytes(s[0], s[1], s[2]);
      hide Join;
      assert s[..3] == [s[0], s[1], s[2]];
    } else {
      FourBytes(s[0], s[1], s[2], s[3]);
      hide Join;
      assert s[..4] == [s[0], s[1], s[2], s[3]];
    }
  }

  lemma {:induction false} TwoBytes(a: byte, b: byte)
    requires 0xC2 <= a < 0xE0 && Continues(b)
    ensures Scalar(Join(a - 0xC0, b)) == [a, b]
  {
    JoinParts(a - 0xC0, b);
    assert 0x80 <= Join(a - 0xC0, b) < 0x800;
    hide Join;
  }

  lemma {:induction false} ThreeBytes(a: byte, b: byte, c: byte)
    requires 0xE0 <= a < 0xF0 && Continues(b) && Continues(c) && (a == 0xE0 ==> b >= 0xA0) && (a == 0xED ==> b < 0xA0)
    ensures var x := Join(Join(a - 0xE0, b), c); (x < 0xD800 || 0xE000 <= x <= 0x10FFFF) && Scalar(x) == [a, b, c]
  {
    var x := Join(Join(a - 0xE0, b), c);
    assert 0x800 <= x < 0x1_0000 && (x < 0xD800 || 0xE000 <= x);
    JoinParts(a - 0xE0, b);
    JoinParts(Join(a - 0xE0, b), c);
    Wider(x);
    hide Join;
  }

  lemma {:induction false} FourBytes(a: byte, b: byte, c: byte, d: byte)
    requires 0xF0 <= a <= 0xF4 && Continues(b) && Continues(c) && Continues(d)
    requires (a == 0xF0 ==> b >= 0x90) && (a == 0xF4 ==> b < 0x90)
    ensures var x := Join(Join(Join(a - 0xF0, b), c), d); 0xE000 <= x <= 0x10FFFF && Scalar(x) == [a, b, c, d]
  {
    var x := Join(Join(Join(a - 0xF0, b), c), d);
    assert 0x1_0000 <= x <= 0x10FFFF;
    JoinParts(a - 0xF0, b);
    JoinParts(Join(a - 0xF0, b), c);
    JoinParts(Join(Join(a - 0xF0, b), c), d);
    Wider(x);
    hide Join;
  }

  lemma {:induction false} Utf8IsText(s: bytes) returns (cs: seq<scalar>)
    requires IsUtf8(s)
    ensures Text(cs) == s
    decreases |s|
  {
    hide Scalar, Utf8Length, CodePoint;
    if s == [] {
      cs := [];
    } else {
      var n := Utf8Length(s);
      var more := Utf8IsText(s[n..]);
      ScalarOfCodePoint(s);
      cs := [CodePoint(s)] + more;
      assert cs[1..] == more && s == s[..n] + s[n..];
    }
  }

  /** The test accepts exactly the encodings of sequences of scalar values. */
  lemma {:induction false} Utf8ExactlyWhen(s: bytes)
    ensures IsUtf8(s) <==> exists cs: seq<scalar> :: Text(cs) == s
  {
    hide IsUtf8, Text;
    if IsUtf8(s) {
      var cs := Utf8IsText(s);
    }
    if cs: seq<scalar> :| Text(cs) == s {
      TextIsUtf8(cs);
    }
  }
}
