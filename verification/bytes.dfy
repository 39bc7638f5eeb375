/** Bytes, little-endian integers and opaque 32-bit float words. */
module Bytes {

  type uint8 = x: int | 0 <= x < 0x100

  /** A 32-bit float exactly as it sits in the file. The decoder only copies
      floats, so their bit pattern is all the model keeps. */
  type F32 = w: seq<uint8> | |w| == 4 witness [0, 0, 0, 0]

  function Pow256(n: nat): (r: nat)
    ensures r > 0
  {
    if n == 0 then 1 else 0x100 * Pow256(n - 1)
  }

  /** The unsigned value of a little-endian byte string: struct's '<H' on two
      bytes, '<I' and '<L' on four. */
  function LittleEndian(b: seq<uint8>): (v: nat)
    ensures v < Pow256(|b|)
    decreases |b|
  {
    if |b| == 0 then 0 else b[0] + 0x100 * LittleEndian(b[1..])
  }

  /** The n-byte little-endian encoding of v (only its low n bytes). */
  function ToLittleEndian(v: nat, n: nat): (b: seq<uint8>)
    ensures |b| == n
  {
    if n == 0 then [] else [v % 0x100] + ToLittleEndian(v / 0x100, n - 1)
  }

  lemma {:induction false} LittleEndianRoundTrip(v: nat, n: nat)
    requires v < Pow256(n)
    ensures LittleEndian(ToLittleEndian(v, n)) == v
  {
    if n > 0 {
      var b := ToLittleEndian(v, n);
      assert b[1..] == ToLittleEndian(v / 0x100, n - 1);
      LittleEndianRoundTrip(v / 0x100, n - 1);
    }
  }

  lemma {:induction false} ToLittleEndianRoundTrip(b: seq<uint8>)
    ensures ToLittleEndian(LittleEndian(b), |b|) == b
    decreases |b|
  {
    if |b| > 0 {
      var v := LittleEndian(b);
      assert v % 0x100 == b[0] && v / 0x100 == LittleEndian(b[1..]);
      ToLittleEndianRoundTrip(b[1..]);
    }
  }

  /** The words of a byte string whose length is a multiple of four, in order:
      what struct's '<ff', '<fff' and '<ffff' produce, bit pattern kept. */
  function Words(d: seq<uint8>): (ws: seq<F32>)
    requires |d| % 4 == 0
    ensures 4 * |ws| == |d|
    decreases |d|
  {
    if |d| == 0 then [] else [d[..4]] + Words(d[4..])
  }

  /** The bytes of a sequence of words, in order. */
  function Flatten(ws: seq<F32>): (d: seq<uint8>)
    ensures |d| == 4 * |ws|
  {
    if |ws| == 0 then [] else ws[0] + Flatten(ws[1..])
  }

  lemma {:induction false} WordsFlatten(ws: seq<F32>)
    ensures Words(Flatten(ws)) == ws
  {
    if |ws| > 0 {
      var d := Flatten(ws);
      assert d[..4] == ws[0];
      assert d[4..] == Flatten(ws[1..]);
      WordsFlatten(ws[1..]);
    }
  }

  /** The little-endian 32-bit values of a byte string of whole words: struct's '<IIII'. */
  function Uint32s(d: seq<uint8>): (xs: seq<nat>)
    requires |d| % 4 == 0
    ensures 4 * |xs| == |d|
    ensures forall i :: 0 <= i < |xs| ==> xs[i] < 0x1_0000_0000
    decreases |d|
  {
    assert Pow256(4) == 0x1_0000_0000;
    if |d| == 0 then [] else [LittleEndian(d[..4])] + Uint32s(d[4..])
  }

  /** Four bytes per value, little-endian. */
  function Uint32Bytes(xs: seq<nat>): (d: seq<uint8>)
    ensures |d| == 4 * |xs|
  {
    if |xs| == 0 then [] else ToLittleEndian(xs[0], 4) + Uint32Bytes(xs[1..])
  }

  lemma {:induction false} Uint32sRoundTrip(xs: seq<nat>)
    requires forall i :: 0 <= i < |xs| ==> xs[i] < 0x1_0000_0000
    ensures Uint32s(Uint32Bytes(xs)) == xs
  {
    if |xs| > 0 {
      var d := Uint32Bytes(xs);
      assert d[..4] == ToLittleEndian(xs[0], 4);
      assert d[4..] == Uint32Bytes(xs[1..]);
      LittleEndianRoundTrip(xs[0], 4);
      Uint32sRoundTrip(xs[1..]);
    }
  }

  /** s occurs in buf starting at position pos. */
  ghost predicate At(buf: seq<uint8>, pos: nat, s: seq<uint8>) {
    pos + |s| <= |buf| && buf[pos .. pos + |s|] == s
  }

  lemma AtConcat(buf: seq<uint8>, pos: nat, s: seq<uint8>, t: seq<uint8>)
    requires At(buf, pos, s + t)
    ensures At(buf, pos, s) && At(buf, pos + |s|, t)
  {
    assert buf[pos .. pos + |s|] == (s + t)[..|s|];
    assert buf[pos + |s| .. pos + |s| + |t|] == (s + t)[|s|..];
  }

  /** buf and buf' hold the same bytes on [lo, hi). */
  ghost predicate Agree(buf: seq<uint8>, buf': seq<uint8>, lo: nat, hi: nat) {
    lo <= hi <= |buf| && hi <= |buf'| && forall i :: lo <= i < hi ==> buf[i] == buf'[i]
  }

  lemma AgreeSlice(buf: seq<uint8>, buf': seq<uint8>, lo: nat, hi: nat, i: nat, j: nat)
    requires Agree(buf, buf', lo, hi) && lo <= i <= j <= hi
    ensures buf'[i .. j] == buf[i .. j]
  {
    assert forall k :: 0 <= k < j - i ==> buf'[i .. j][k] == buf'[i + k] == buf[i + k] == buf[i .. j][k];
  }

  /** Any slice of s is found at the matching place of a buffer holding s. */
  lemma AtSlice(buf: seq<uint8>, pos: nat, s: seq<uint8>, i: nat, j: nat)
    requires At(buf, pos, s) && i <= j <= |s|
    ensures buf[pos + i .. pos + j] == s[i .. j]
  {
    forall k | 0 <= k < j - i
      ensures buf[pos + i .. pos + j][k] == s[i .. j][k]
    {
      assert buf[pos + i .. pos + j][k] == buf[pos .. pos + |s|][i + k];
    }
  }
}
