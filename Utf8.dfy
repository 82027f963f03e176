/**
 * `bytes.decode("utf-8", errors="ignore")` and `str.encode("utf-8")`.
 * With the "ignore" handler every well-formed UTF-8 sequence becomes its
 * character and every other byte is dropped; decoding never fails.
 */
module Utf8 {

  newtype byte = x: int | 0 <= x < 256

  predicate IsCont(b: byte) { 0x80 <= b <= 0xBF }

  /** The length of the well-formed UTF-8 sequence at the start of `bs`
      (Table 3-7 of the Unicode Standard), or 0 when there is none. */
  function SequenceLength(bs: seq<byte>): (n: nat)
    ensures n <= 4 && n <= |bs|
    ensures bs != [] && bs[0] < 0x80 ==> n == 1
  {
    if bs == [] then 0
    else
      var b0 := bs[0];
      if b0 < 0x80 then 1
      else if 0xC2 <= b0 <= 0xDF then
        if |bs| >= 2 && IsCont(bs[1]) then 2 else 0
      else if 0xE0 <= b0 <= 0xEF then
        var lo: byte := if b0 == 0xE0 then 0xA0 else 0x80;
        var hi: byte := if b0 == 0xED then 0x9F else 0xBF;
        if |bs| >= 3 && lo <= bs[1] <= hi && IsCont(bs[2]) then 3 else 0
      else if 0xF0 <= b0 <= 0xF4 then
        var lo: byte := if b0 == 0xF0 then 0x90 else 0x80;
        var hi: byte := if b0 == 0xF4 then 0x8F else 0xBF;
        if |bs| >= 4 && lo <= bs[1] <= hi && IsCont(bs[2]) && IsCont(bs[3]) then 4 else 0
      else 0
  }

  /** The scalar value a well-formed sequence encodes. */
  function ScalarOf(bs: seq<byte>): (c: char)
    requires SequenceLength(bs) > 0
  {
    var n := SequenceLength(bs);
    var v :=
      if n == 1 then bs[0] as int
      else if n == 2 then (bs[0] as int - 0xC0) * 64 + (bs[1] as int - 0x80)
      else if n == 3 then
        (bs[0] as int - 0xE0) * 4096 + (bs[1] as int - 0x80) * 64 + (bs[2] as int - 0x80)
      else
        (bs[0] as int - 0xF0) * 262144 + (bs[1] as int - 0x80) * 4096
        + (bs[2] as int - 0x80) * 64 + (bs[3] as int - 0x80);
    assert 0 <= v < 0xD800 || 0xE000 <= v < 0x11_0000;
    v as char
  }

  /** `bs.decode("utf-8", errors="ignore")` */
  function Decode(bs: seq<byte>): (s: string)
    ensures |s| <= |bs|
    decreases |bs|
  {
    if bs == [] then []
    else
      var n := SequenceLength(bs);
      if n == 0 then Decode(bs[1..]) else [ScalarOf(bs)] + Decode(bs[n..])
  }

  /** The UTF-8 encoding of one character. */
  function EncodeChar(c: char): (bs: seq<byte>)
    ensures 1 <= |bs| <= 4
  {
    var v := c as int;
    if v < 0x80 then [v as byte]
    else if v < 0x800 then [(0xC0 + v / 64) as byte, (0x80 + v % 64) as byte]
    else if v < 0x1_0000 then
      [(0xE0 + v / 4096) as byte, (0x80 + (v / 64) % 64) as byte, (0x80 + v % 64) as byte]
    else
      [(0xF0 + v / 262144) as byte, (0x80 + (v / 4096) % 64) as byte,
       (0x80 + (v / 64) % 64) as byte, (0x80 + v % 64) as byte]
  }

  /** `s.encode("utf-8")` */
  function Encode(s: string): (bs: seq<byte>)
    ensures |bs| >= |s|
  {
    if s == [] then [] else EncodeChar(s[0]) + Encode(s[1..])
  }

  lemma TwoByteDigits(v: int)
    requires 0x80 <= v < 0x800
    ensures 2 <= v / 64 <= 31 && v == (v / 64) * 64 + v % 64
  {
  }

  lemma ThreeByteDigits(v: int)
    requires 0x800 <= v < 0x1_0000 && !(0xD800 <= v < 0xE000)
    ensures v / 4096 <= 15
    ensures v == (v / 4096) * 4096 + ((v / 64) % 64) * 64 + v % 64
    ensures v / 4096 == 0 ==> (v / 64) % 64 >= 0x20
    ensures v / 4096 == 0xD ==> (v / 64) % 64 <= 0x1F
  {
  }

  lemma FourByteDigits(v: int)
    requires 0x1_0000 <= v < 0x11_0000
    ensures 0 <= v / 262144 <= 4
    ensures v == (v / 262144) * 262144 + ((v / 4096) % 64) * 4096 + ((v / 64) % 64) * 64 + v % 64
    ensures v / 262144 == 0 ==> (v / 4096) % 64 >= 0x10
    ensures v / 262144 == 4 ==> (v / 4096) % 64 <= 0x0F
  {
  }

  /** The encoding of a character is one well-formed sequence, whatever
      follows it, and it encodes that character. */
  lemma EncodeCharWellFormed(c: char, rest: seq<byte>)
    ensures SequenceLength(EncodeChar(c) + rest) == |EncodeChar(c)|
    ensures ScalarOf(EncodeChar(c) + rest) == c
  {
    var bs := EncodeChar(c) + rest;
    var v := c as int;
    if v < 0x80 {
    } else if v < 0x800 {
      TwoByteDigits(v);
      assert bs[0] as int == 0xC0 + v / 64 && bs[1] as int == 0x80 + v % 64;
    } else if v < 0x1_0000 {
      ThreeByteDigits(v);
      assert bs[0] as int == 0xE0 + v / 4096;
      assert bs[1] as int == 0x80 + (v / 64) % 64;
      assert bs[2] as int == 0x80 + v % 64;
    } else {
      FourByteDigits(v);
      assert bs[0] as int == 0xF0 + v / 262144;
      assert bs[1] as int == 0x80 + (v / 4096) % 64;
      assert bs[2] as int == 0x80 + (v / 64) % 64;
      assert bs[3] as int == 0x80 + v % 64;
    }
  }

  /** Decoding undoes encoding: a string written to EXIF as UTF-8 bytes
      reads back unchanged. */
  lemma {:induction false} DecodeEncode(s: string)
    ensures Decode(Encode(s)) == s
  {
    if s != [] {
      var e := EncodeChar(s[0]);
      var rest := Encode(s[1..]);
      EncodeCharWellFormed(s[0], rest);
      assert Encode(s) == e + rest;
      assert (e + rest)[|e|..] == rest;
      DecodeEncode(s[1..]);
    }
  }

  /** Bytes below 0x80 decode one for one. */
  lemma {:induction false} DecodeAscii(bs: seq<byte>)
    requires forall i :: 0 <= i < |bs| ==> bs[i] < 0x80
    ensures |Decode(bs)| == |bs|
    ensures forall i :: 0 <= i < |bs| ==> Decode(bs)[i] as int == bs[i] as int
  {
    if bs != [] {
      DecodeAscii(bs[1..]);
    }
  }
}
