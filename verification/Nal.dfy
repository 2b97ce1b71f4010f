/**
 Emulation prevention for network abstraction layer units: section 7.4.1.1 of ISO/IEC 14496-10
 and section 7.4.2.3 of ISO/IEC 23008-2.
 */
module Nal {
  import opened Bytes

  // ---------------------------------------------------------------- writing

  /** One byte as it is written after `z` zero bytes. */
  function Emit(b: byte, z: nat): bytes {
    if z >= 2 && b <= 3 then [3, b] else [b]
  }

  /** The writer's zero counter after a byte. */
  function CountAfter(b: byte, z: nat): nat {
    if b != 0 then 0 else if z >= 2 then 1 else z + 1
  }

  function Escaped(s: bytes, z: nat): bytes {
    if s == [] then [] else Emit(s[0], z) + Escaped(s[1..], CountAfter(s[0], z))
  }

  function CountEnd(s: bytes, z: nat): nat {
    if s == [] then z else CountEnd(s[1..], CountAfter(s[0], z))
  }

  lemma {:induction false} EscapedAppend(a: bytes, b: bytes, z: nat)
    ensures Escaped(a + b, z) == Escaped(a, z) + Escaped(b, CountEnd(a, z))
    ensures CountEnd(a + b, z) == CountEnd(b, CountEnd(a, z))
  {
    if a == [] {
      assert a + b == b;
    } else {
      assert (a + b)[1..] == a[1..] + b;
      EscapedAppend(a[1..], b, CountAfter(a[0], z));
    }
  }

  lemma {:induction false} EscapedSnoc(s: bytes, b: byte, z: nat)
    ensures Escaped(s + [b], z) == Escaped(s, z) + Emit(b, CountEnd(s, z))
    ensures CountEnd(s + [b], z) == CountAfter(b, CountEnd(s, z))
  {
    EscapedAppend(s, [b], z);
    assert [b][1..] == [];
    assert Emit(b, CountEnd(s, z)) + [] == Emit(b, CountEnd(s, z));
  }

  class EmulationPreventionWriter {
    var inner: bytes
    var zeroCount: nat

    constructor ()
      ensures inner == [] && zeroCount == 0
    {
      inner, zeroCount := [], 0;
    }

    /** The counter never passes two, so its eight bits are enough. */
    method Write(buf: bytes)
      requires zeroCount <= 2
      modifies this
      ensures zeroCount <= 2
      ensures inner == old(inner) + Escaped(buf, old(zeroCount)) && zeroCount == CountEnd(buf, old(zeroCount))
    {
      hide Escaped, CountEnd;
      Nothing(zeroCount);
      for i := 0 to |buf|
        invariant zeroCount <= 2 && zeroCount == CountEnd(buf[..i], old(zeroCount))
        invariant inner == old(inner) + Escaped(buf[..i], old(zeroCount))
      {
        EscapedSnoc(buf[..i], buf[i], old(zeroCount));
        assert buf[..i + 1] == buf[..i] + [buf[i]];
        if zeroCount >= 2 && buf[i] <= 0x03 {
          inner := inner + [0x03];
          zeroCount := 0;
        }
        inner := inner + [buf[i]];
        if buf[i] == 0x00 {
          zeroCount := zeroCount + 1;
        } else {
          zeroCount := 0;
        }
      }
      assert buf[..|buf|] == buf;
    }
  }

  lemma {:induction false} Nothing(z: nat)
    ensures Escaped([], z) == [] && CountEnd([], z) == z
  {}

  // ---------------------------------------------------------------- reading

  /** What a reader that has just seen `z` zero bytes hands on; its counter has eight bits. */
  function Unescaped(s: bytes, z: byte): bytes {
    if s == [] then []
    else if s[0] == 3 && z >= 2 then Unescaped(s[1..], 0)
    else [s[0]] + Unescaped(s[1..], if s[0] == 0 then (z + 1) % 256 else 0)
  }

  /** The reader's counter after some bytes. */
  function ReaderCount(s: bytes, z: byte): byte {
    if s == [] then z
    else ReaderCount(s[1..], if s[0] == 0 then (z + 1) % 256 else 0)
  }

  lemma {:induction false} ReaderCountAppend(a: bytes, b: bytes, z: byte)
    ensures ReaderCount(a + b, z) == ReaderCount(b, ReaderCount(a, z))
  {
    if a == [] {
      assert a + b == b;
    } else {
      assert (a + b)[1..] == a[1..] + b;
      ReaderCountAppend(a[1..], b, if a[0] == 0 then (z + 1) % 256 else 0);
    }
  }

  lemma {:induction false} ReaderCountNext(s: bytes, p: nat, q: nat, z: byte)
    requires p <= q < |s|
    ensures var c := ReaderCount(s[p..q], z);
            ReaderCount(s[p..q + 1], z) == if s[q] == 0 then (c + 1) % 256 else 0
  {
    assert s[p..q + 1] == s[p..q] + [s[q]];
    ReaderCountAppend(s[p..q], [s[q]], z);
    assert [s[q]][1..] == [];
  }

  class EmulationPreventionReader {
    const inner: bytes
    var pos: nat
    var zeroCount: byte

    constructor (inner: bytes)
      ensures this.inner == inner && pos == 0 && zeroCount == 0
    {
      this.inner, pos, zeroCount := inner, 0, 0;
    }

    ghost function Rest(): bytes
      requires pos <= |inner|
      reads this
    {
      Unescaped(inner[pos..], zeroCount)
    }

    /** Fills a buffer of `n` bytes as far as the stream goes. */
    method Read(n: nat) returns (buf: bytes)
      requires pos <= |inner|
      modifies this
      ensures old(pos) <= pos <= |inner| && buf + Rest() == old(Rest())
      ensures |buf| == if |old(Rest())| < n then |old(Rest())| else n
      ensures zeroCount == ReaderCount(inner[old(pos)..pos], old(zeroCount))
    {
      hide Unescaped, ReaderCount;
      buf := [];
      NothingCounted(inner[pos..pos], zeroCount);
      while n > |buf|
        invariant old(pos) <= pos <= |inner| && buf + Rest() == old(Rest()) && |buf| <= n
        invariant zeroCount == ReaderCount(inner[old(pos)..pos], old(zeroCount))
        decreases |inner| - pos
      {
        UnescapedNext(inner, pos, zeroCount);
        if pos == |inner| {
          break;
        }
        ReaderCountNext(inner, old(pos), pos, old(zeroCount));
        var b := inner[pos];
        pos := pos + 1;
        if b == 0x03 && zeroCount >= 2 {
          zeroCount := 0;
          continue;
        } else if b == 0x00 {
          zeroCount := (zeroCount + 1) % 256;
        } else {
          zeroCount := 0;
        }
        buf := buf + [b];
      }
    }
  }

  lemma {:induction false} NothingCounted(s: bytes, z: byte)
    requires s == []
    ensures ReaderCount(s, z) == z
  {}

  lemma {:induction false} UnescapedNext(s: bytes, p: nat, z: byte)
    requires p <= |s|
    ensures p == |s| ==> Unescaped(s[p..], z) == []
    ensures p < |s| && s[p] == 3 && z >= 2 ==> Unescaped(s[p..], z) == Unescaped(s[p + 1..], 0)
    ensures p < |s| && !(s[p] == 3 && z >= 2) ==>
              Unescaped(s[p..], z) == [s[p]] + Unescaped(s[p + 1..], if s[p] == 0 then (z + 1) % 256 else 0)
  {
    if p < |s| {
      assert s[p..][1..] == s[p + 1..];
    }
  }

  /** On what the writer puts out, cut anywhere, the reader's counter is at most two as well: it never wraps. */
  lemma {:induction false} ReaderCountIsBounded(s: bytes, z: nat, k: nat)
    requires z <= 2 && k <= |Escaped(s, z)|
    ensures ReaderCount(Escaped(s, z)[..k], z) <= 2
    decreases |s|
  {
    var e := Escaped(s, z);
    if k > 0 {
      var head, rest := Emit(s[0], z), Escaped(s[1..], CountAfter(s[0], z));
      assert e == head + rest;
      if k <= |head| {
        HeadIsCounted(s[0], z, k);
        assert e[..k] == head[..k];
      } else {
        HeadIsCounted(s[0], z, |head|);
        assert head[..|head|] == head;
        assert e[..k] == head + rest[..k - |head|];
        ReaderCountAppend(head, rest[..k - |head|], z);
        ReaderCountIsBounded(s[1..], CountAfter(s[0], z), k - |head|);
      }
    }
  }

  lemma {:induction false} HeadIsCounted(b: byte, z: nat, k: nat)
    requires z <= 2 && 0 < k <= |Emit(b, z)|
    ensures ReaderCount(Emit(b, z)[..k], z) <= 2
    ensures k == |Emit(b, z)| ==> ReaderCount(Emit(b, z)[..k], z) == CountAfter(b, z)
  {
    var s := Emit(b, z)[..k];
    if k == 1 {
      assert s[1..] == [];
    } else {
      var last: bytes := [b];
      assert s == [3] + last && s[1..] == last && last[1..] == [];
      assert ReaderCount(s, z) == ReaderCount(last, 0);
      assert ReaderCount(last, 0) == if b == 0 then 1 else 0;
    }
  }

  // ---------------------------------------------------------------- round trip

  lemma {:induction false} RoundTrip(s: bytes, z: nat)
    requires z <= 2
    ensures Unescaped(Escaped(s, z), z) == s
  {
    if s != [] {
      var b, rest := s[0], Escaped(s[1..], CountAfter(s[0], z));
      RoundTrip(s[1..], CountAfter(b, z));
      var e := Escaped(s, z);
      assert e[1..] == (if z >= 2 && b <= 3 then [b] + rest else rest);
      assert ([b] + rest)[1..] == rest;
    }
  }

  function Sum(sizes: seq<nat>): nat {
    if sizes == [] then 0 else Sum(sizes[..|sizes| - 1]) + sizes[|sizes| - 1]
  }

  /** Written in any pieces and read into buffers of any sizes, the bytes come back, as many as the buffers hold. */
  method ChunkedRoundTrip(chunks: seq<bytes>, sizes: seq<nat>) returns (back: bytes, count: byte)
    ensures var all := Flatten(chunks);
            back == if Sum(sizes) <= |all| then all[..Sum(sizes)] else all
    ensures count <= 2
  {
    var escaped := WriteChunks(chunks);
    var all := Flatten(chunks);
    hide *;
    RoundTrip(all, 0);
    var r := new EmulationPreventionReader(escaped);
    RestAtStart(r);
    back := [];
    SumOf(sizes, 0);
    for i := 0 to |sizes|
      invariant fresh(r) && r.pos <= |r.inner| && r.inner == escaped
      invariant back + r.Rest() == all
      invariant |back| == if Sum(sizes[..i]) <= |all| then Sum(sizes[..i]) else |all|
      invariant r.zeroCount == ReaderCount(escaped[..r.pos], 0) && r.zeroCount <= 2
    {
      ghost var p := r.pos;
      var buf := r.Read(sizes[i]);
      back := back + buf;
      SumOf(sizes, i + 1);
      assert escaped[..r.pos] == escaped[..p] + escaped[p..r.pos];
      ReaderCountAppend(escaped[..p], escaped[p..r.pos], 0);
      ReaderCountIsBounded(all, 0, r.pos);
    }
    assert sizes[..|sizes|] == sizes;
    count := r.zeroCount;
  }

  method WriteChunks(chunks: seq<bytes>) returns (out: bytes)
    ensures out == Escaped(Flatten(chunks), 0)
  {
    hide Escaped, CountEnd, Flatten;
    var w := new EmulationPreventionWriter();
    Nothing(0);
    NoChunks();
    for i := 0 to |chunks|
      invariant fresh(w) && w.zeroCount <= 2
      invariant w.inner == Escaped(Flatten(chunks[..i]), 0) && w.zeroCount == CountEnd(Flatten(chunks[..i]), 0)
    {
      assert chunks[..i + 1] == chunks[..i] + [chunks[i]];
      FlattenSnoc(chunks[..i], chunks[i]);
      EscapedAppend(Flatten(chunks[..i]), chunks[i], 0);
      w.Write(chunks[i]);
    }
    assert chunks[..|chunks|] == chunks;
    return w.inner;
  }

  lemma {:induction false} NoChunks()
    ensures Flatten([]) == []
  {}

  lemma {:induction false} RestAtStart(r: EmulationPreventionReader)
    requires r.pos == 0 && r.zeroCount == 0
    ensures r.Rest() == Unescaped(r.inner, 0)
    ensures ReaderCount(r.inner[..0], 0) == 0
  {
    assert r.inner[0..] == r.inner;
  }

  lemma {:induction false} SumOf(sizes: seq<nat>, i: nat)
    requires i <= |sizes|
    ensures Sum(sizes[..i]) == if i == 0 then 0 else Sum(sizes[..i - 1]) + sizes[i - 1]
  {
    if i > 0 {
      assert sizes[..i][..i - 1] == sizes[..i - 1];
    }
  }

  // ---------------------------------------------------------------- the output

  /** No three bytes in a row that a start code or a reserved pattern could begin with. */
  ghost predicate NoEmulation(e: bytes) {
    forall i :: 0 <= i && i + 2 < |e| && e[i] == 0 && e[i + 1] == 0 ==> e[i + 2] >= 3
  }

  function TrailingZeros(e: bytes): nat {
    if e == [] || e[|e| - 1] != 0 then 0 else 1 + TrailingZeros(e[..|e| - 1])
  }

  /** The counter is the number of zero bytes the output ends in; so no forbidden pattern gets out. */
  lemma {:induction false} NothingIsEmulated(s: bytes)
    ensures NoEmulation(Escaped(s, 0))
    ensures CountEnd(s, 0) == TrailingZeros(Escaped(s, 0)) <= 2
  {
    if s != [] {
      var t, b := s[..|s| - 1], s[|s| - 1];
      assert s == t + [b];
      NothingIsEmulated(t);
      EscapedSnoc(t, b, 0);
      hide Escaped, CountEnd, TrailingZeros;
      var e := Escaped(t, 0);
      if CountEnd(t, 0) >= 2 && b <= 3 {
        assert Escaped(s, 0) == e + [3] + [b];
        CleanSnoc(e, 3);
        CleanSnoc(e + [3], b);
      } else {
        CleanSnoc(e, b);
      }
    }
  }

  lemma {:induction false} CleanSnoc(e: bytes, b: byte)
    requires NoEmulation(e) && (TrailingZeros(e) >= 2 ==> b >= 3)
    ensures NoEmulation(e + [b])
    ensures TrailingZeros(e + [b]) == if b == 0 then TrailingZeros(e) + 1 else 0
  {
    var f := e + [b];
    assert f[..|e|] == e;
    if |e| >= 2 && e[|e| - 1] == 0 && e[|e| - 2] == 0 {
      assert e[..|e| - 1][..|e| - 2] == e[..|e| - 2];
      assert TrailingZeros(e) == 2 + TrailingZeros(e[..|e| - 2]);
    }
  }

  /** The output is at most half as long again: one byte is added for every two, and none for the last one. */
  lemma {:induction false} GrowthIsBounded(s: bytes)
    ensures var added := |Escaped(s, 0)| - |s|;
            && 0 <= added && 2 * added + CountEnd(s, 0) <= |s| && (s != [] ==> 2 * added <= |s| - 1)
    ensures CountEnd(s, 0) <= 2
  {
    if s != [] {
      var t, b := s[..|s| - 1], s[|s| - 1];
      assert s == t + [b];
      GrowthIsBounded(t);
      EscapedSnoc(t, b, 0);
      hide Escaped, CountEnd;
    }
  }

  /** The bound is reached. */
  lemma {:induction false} GrowthIsTight(s: bytes)
    requires |s| % 2 == 1 && forall i :: 0 <= i < |s| ==> s[i] == 0
    ensures 2 * (|Escaped(s, 0)| - |s|) == |s| - 1
    ensures CountEnd(s, 0) == 1
  {
    if |s| == 1 {
      assert s == [0] && [0][1..] == [];
      assert Emit(0, 0) + [] == [0];
    } else {
      var t := s[..|s| - 2];
      GrowthIsTight(t);
      EscapedSnoc(t, 0, 0);
      EscapedSnoc(t + [0], 0, 0);
      assert s == t + [0] + [0];
    }
  }

  // ---------------------------------------------------------------- exactly which bytes are added and dropped

  /** A prevention byte stands only before a byte that needs it. */
  ghost predicate NothingWasted(e: bytes) {
    forall i :: 0 <= i && i + 2 < |e| && e[i] == 0 && e[i + 1] == 0 && e[i + 2] == 3 ==> i + 3 < |e| && e[i + 3] <= 3
  }

  lemma {:induction false} EscapesOnlyWhereNeeded(s: bytes)
    ensures NothingWasted(Escaped(s, 0))
  {
    if s != [] {
      var t, b := s[..|s| - 1], s[|s| - 1];
      assert s == t + [b];
      EscapesOnlyWhereNeeded(t);
      NothingIsEmulated(t);
      EscapedSnoc(t, b, 0);
      hide Escaped, CountEnd, NothingWasted, TrailingZeros;
      if CountEnd(t, 0) >= 2 && b <= 3 {
        PreventionIsNeeded(Escaped(t, 0), b);
      } else {
        NothingNewWasted(Escaped(t, 0), b);
      }
    }
  }

  lemma {:induction false} PreventionIsNeeded(e: bytes, b: byte)
    requires NothingWasted(e) && b <= 3
    ensures NothingWasted(e + [3, b])
  {
    var f := e + [3, b];
    forall i | 0 <= i && i + 2 < |f| && f[i] == 0 && f[i + 1] == 0 && f[i + 2] == 3 ensures i + 3 < |f| && f[i + 3] <= 3 {
      if i + 2 < |e| {
        assert e[i] == 0 && e[i + 1] == 0 && e[i + 2] == 3;
      }
    }
  }

  lemma {:induction false} NothingNewWasted(e: bytes, b: byte)
    requires NothingWasted(e) && !(TrailingZeros(e) >= 2 && b == 3)
    ensures NothingWasted(e + [b])
  {
    TrailingZerosAre(e);
    hide TrailingZeros;
    var f := e + [b];
    forall i | 0 <= i && i + 2 < |f| && f[i] == 0 && f[i + 1] == 0 && f[i + 2] == 3 ensures i + 3 < |f| && f[i + 3] <= 3 {
      if i + 2 < |e| {
        assert e[i] == 0 && e[i + 1] == 0 && e[i + 2] == 3;
      }
    }
  }

  lemma {:induction false} TrailingZerosAre(e: bytes)
    ensures TrailingZeros(e) >= 1 <==> |e| >= 1 && e[|e| - 1] == 0
    ensures TrailingZeros(e) >= 2 <==> |e| >= 2 && e[|e| - 1] == 0 && e[|e| - 2] == 0
  {
    if |e| >= 2 && e[|e| - 1] == 0 {
      assert e[..|e| - 1][|e| - 2] == e[|e| - 2];
    }
  }

  /** Nothing in the input needs a prevention byte: no two zero bytes before a byte of at most three. */
  ghost predicate Harmless(s: bytes) {
    forall i :: 0 <= i && i + 2 < |s| && s[i] == 0 && s[i + 1] == 0 ==> s[i + 2] > 3
  }

  /** The output is the input itself if and only if nothing in it needs a prevention byte. */
  lemma {:induction false} UnchangedExactlyWhen(s: bytes)
    ensures Escaped(s, 0) == s <==> Harmless(s)
    ensures Harmless(s) ==> CountEnd(s, 0) == TrailingZeros(s)
    ensures |Escaped(s, 0)| >= |s|
  {
    if s != [] {
      var t, b := s[..|s| - 1], s[|s| - 1];
      assert s == t + [b];
      UnchangedExactlyWhen(t);
      NothingIsEmulated(t);
      EscapedSnoc(t, b, 0);
      HarmlessSnoc(t, b);
      assert TrailingZeros(s) == if b == 0 then 1 + TrailingZeros(t) else 0;
      hide Escaped, CountEnd, Harmless, TrailingZeros;
      SnocEqual(Escaped(t, 0), t, Emit(b, CountEnd(t, 0)), b);
    }
  }

  lemma {:induction false} SnocEqual(e: bytes, t: bytes, more: bytes, b: byte)
    requires |e| >= |t| && |more| >= 1 && (|more| == 1 ==> more == [b])
    ensures e + more == t + [b] <==> e == t && more == [b]
  {
    if e + more == t + [b] {
      assert |e| == |t|;
      assert (e + more)[..|t|] == e && (t + [b])[..|t|] == t;
    }
  }

  lemma {:induction false} HarmlessSnoc(t: bytes, b: byte)
    ensures Harmless(t + [b]) <==> Harmless(t) && !(TrailingZeros(t) >= 2 && b <= 3)
  {
    TrailingZerosAre(t);
    var s := t + [b];
    if Harmless(s) {
      assert forall i :: 0 <= i < |t| ==> t[i] == s[i];
      if TrailingZeros(t) >= 2 {
        assert s[|t| - 2] == 0 && s[|t| - 2 + 1] == 0;
        assert s[|t| - 2 + 2] == b;
      }
    }
  }

  lemma {:induction false} UnescapedAppend(a: bytes, b: bytes, z: byte)
    ensures Unescaped(a + b, z) == Unescaped(a, z) + Unescaped(b, ReaderCount(a, z))
  {
    if a == [] {
      assert a + b == b;
    } else {
      assert (a + b)[1..] == a[1..] + b;
      UnescapedAppend(a[1..], b, if a[0] == 0 then (z + 1) % 256 else 0);
    }
  }

  lemma {:induction false} ReaderCountsZeros(s: bytes)
    ensures ReaderCount(s, 0) == TrailingZeros(s) % 256
  {
    if s != [] {
      var t, b := s[..|s| - 1], s[|s| - 1];
      assert s == t + [b];
      ReaderCountsZeros(t);
      ReaderCountAppend(t, [b], 0);
      assert [b][1..] == [];
      assert ReaderCount(s, 0) == if b == 0 then (ReaderCount(t, 0) + 1) % 256 else 0;
      hide ReaderCount;
    }
  }

  /**
   On any input at all: a byte is dropped if and only if it is a three behind two zero bytes or more, where
   zero bytes are counted modulo 256; every other byte is handed on.
   */
  lemma {:induction false} DropsExactlyWhen(a: bytes, b: byte, rest: bytes)
    ensures Unescaped(a + [b] + rest, 0) ==
            Unescaped(a, 0) + (if b == 3 && TrailingZeros(a) % 256 >= 2 then [] else [b])
            + Unescaped(rest, TrailingZeros(a + [b]) % 256)
  {
    ReaderCountsZeros(a);
    ReaderCountsZeros(a + [b]);
    UnescapedAppend(a + [b], rest, 0);
    UnescapedAppend(a, [b], 0);
    assert [b][1..] == [];
    assert Unescaped([b], ReaderCount(a, 0)) == if b == 3 && ReaderCount(a, 0) >= 2 then [] else [b];
    hide Unescaped, ReaderCount, TrailingZeros;
  }
}
