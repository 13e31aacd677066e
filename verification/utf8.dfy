/**
 The text codec used by the loader's string helpers: `TextEncoder` and
 `TextDecoder` with their default settings, i.e. UTF-8 as defined in RFC 3629.

 `Encode` is the RFC 3629 encoder. `Decode` is the UTF-8 decoder of the WHATWG
 Encoding Standard in replacement mode: a malformed or truncated sequence
 yields U+FFFD and decoding resumes at the first byte that did not fit.
 `TextDecode` adds what a default `TextDecoder` does on top of that: it drops
 one leading byte order mark.

 A Dafny `char` is a Unicode scalar value, so every string here is
 well-formed Unicode.
 */
module Utf8 {

  /** One octet of an encoded string or of linear memory. */
  type Byte = x: int | 0 <= x < 0x100

  /** U+FFFD, produced by the decoder for every malformed sequence. */
  const Replacement: char := '\U{FFFD}'

  /** U+FEFF, the byte order mark. */
  const ByteOrderMark: char := '\U{FEFF}'

  /** True iff byte `x` lies in the continuation range [lo, hi]. */
  predicate InRange(x: Byte, lo: int, hi: int) {
    lo <= x <= hi
  }

  /**
   The UTF-8 encoding of one scalar value (RFC 3629, section 3).
   Octets 0x00-0x7F occur only as the single-octet encoding of an ASCII
   character; every octet of a longer encoding has its high bit set.
   */
  function EncodeChar(c: char): (r: seq<Byte>)
    ensures 1 <= |r| <= 4
    ensures c as int < 0x80 ==> r == [c as int]
    ensures c as int >= 0x80 ==> forall i :: 0 <= i < |r| ==> r[i] >= 0x80
  {
    var x := c as int;
    if x < 0x80 then
      [x]
    else if x < 0x800 then
      [0xC0 + x / 0x40, 0x80 + x % 0x40]
    else if x < 0x1_0000 then
      [0xE0 + x / 0x1000, 0x80 + (x / 0x40) % 0x40, 0x80 + x % 0x40]
    else
      [0xF0 + x / 0x4_0000, 0x80 + (x / 0x1000) % 0x40, 0x80 + (x / 0x40) % 0x40, 0x80 + x % 0x40]
  }

  /** The UTF-8 encoding of a string: the encodings of its characters, in order. */
  function Encode(s: string): (r: seq<Byte>)
    ensures |s| <= |r| <= 4 * |s|
    ensures 0 in r <==> '\0' in s
  {
    if s == [] then []
    else
      var head := EncodeChar(s[0]);
      assert 0 in head <==> s[0] == '\0';
      assert 0 in head + Encode(s[1..]) <==> 0 in head || 0 in Encode(s[1..]);
      assert s == [s[0]] + s[1..];
      head + Encode(s[1..])
  }

  /** The scalar value carried by a two-byte sequence: 5 payload bits of the lead byte, 6 of the continuation byte. */
  function Scalar2(b0: int, b1: int): int {
    0x40 * (b0 - 0xC0) + (b1 - 0x80)
  }

  /** The scalar value carried by a three-byte sequence (4 + 6 + 6 payload bits). */
  function Scalar3(b0: int, b1: int, b2: int): int {
    0x1000 * (b0 - 0xE0) + 0x40 * (b1 - 0x80) + (b2 - 0x80)
  }

  /** The scalar value carried by a four-byte sequence (3 + 6 + 6 + 6 payload bits). */
  function Scalar4(b0: int, b1: int, b2: int, b3: int): int {
    0x4_0000 * (b0 - 0xF0) + 0x1000 * (b1 - 0x80) + 0x40 * (b2 - 0x80) + (b3 - 0x80)
  }

  /**
   One step of the UTF-8 decoder: the character decoded from the front of `b`
   and the number of bytes consumed. A lead byte announces how many
   continuation bytes follow; the first continuation byte has a narrowed range
   after E0, ED, F0 and F4 (this rules out overlong forms, surrogates and
   values above U+10FFFF). A byte outside the expected range is not consumed.
   */
  function DecodeStep(b: seq<Byte>): (r: (char, nat))
    requires |b| > 0
    ensures 1 <= r.1 <= |b| && r.1 <= 4
    ensures forall i :: 1 <= i < r.1 ==> b[i] >= 0x80
    ensures r.0 == '\0' <==> b[0] == 0
  {
    var b0: int := b[0];
    if b0 < 0x80 then
      (b0 as char, 1)
    else if 0xC2 <= b0 <= 0xDF then
      if |b| < 2 || !InRange(b[1], 0x80, 0xBF) then (Replacement, 1)
      else (Scalar2(b0, b[1]) as char, 2)
    else if 0xE0 <= b0 <= 0xEF then
      var lo := if b0 == 0xE0 then 0xA0 else 0x80;
      var hi := if b0 == 0xED then 0x9F else 0xBF;
      if |b| < 2 || !InRange(b[1], lo, hi) then (Replacement, 1)
      else if |b| < 3 || !InRange(b[2], 0x80, 0xBF) then (Replacement, 2)
      else (Scalar3(b0, b[1], b[2]) as char, 3)
    else if 0xF0 <= b0 <= 0xF4 then
      var lo := if b0 == 0xF0 then 0x90 else 0x80;
      var hi := if b0 == 0xF4 then 0x8F else 0xBF;
      if |b| < 2 || !InRange(b[1], lo, hi) then (Replacement, 1)
      else if |b| < 3 || !InRange(b[2], 0x80, 0xBF) then (Replacement, 2)
      else if |b| < 4 || !InRange(b[3], 0x80, 0xBF) then (Replacement, 3)
      else (Scalar4(b0, b[1], b[2], b[3]) as char, 4)
    else
      (Replacement, 1)
  }

  /**
   The UTF-8 decoding of a byte sequence, one `DecodeStep` at a time.
   It never yields more characters than there are bytes, and it yields U+0000
   exactly where the input holds a zero byte.
   */
  function Decode(b: seq<Byte>): (s: string)
    ensures |s| <= |b|
    ensures '\0' in s <==> 0 in b
    decreases |b|
  {
    if |b| == 0 then []
    else
      var (c, n) := DecodeStep(b);
      var rest := Decode(b[n..]);
      assert b == b[..n] + b[n..];
      assert 0 in b[..n] <==> b[0] == 0;
      [c] + rest
  }

  /**
   What `new TextDecoder('utf-8', {ignoreBOM}).decode(b)` returns. With the
   default `ignoreBOM = false` the decoder consumes one leading byte order
   mark instead of returning it; with `ignoreBOM = true` it keeps it.
   */
  function TextDecode(b: seq<Byte>, ignoreBom: bool := false): (s: string)
    ensures |s| <= |b|
    ensures '\0' in s <==> 0 in b
  {
    var d := Decode(b);
    if !ignoreBom && StartsWithBom(d) then
      assert forall j :: 0 <= j < |d| - 1 ==> d[1..][j] == d[j + 1];
      d[1..]
    else d
  }

  /** True iff `s` begins with a byte order mark. */
  predicate StartsWithBom(s: string) {
    |s| > 0 && s[0] == ByteOrderMark
  }

  /** The decoder reads back exactly the character whose encoding leads `b`. */
  lemma DecodeStepEncodeChar(c: char, tail: seq<Byte>)
    ensures DecodeStep(EncodeChar(c) + tail) == (c, |EncodeChar(c)|)
  {
    var x := c as int;
    if x < 0x80 {
    } else if x < 0x800 {
      DecodeStepTwo(c, tail);
    } else if x < 0x1_0000 {
      DecodeStepThree(c, tail);
    } else {
      DecodeStepFour(c, tail);
    }
  }

  lemma DecodeStepTwo(c: char, tail: seq<Byte>)
    requires 0x80 <= c as int < 0x800
    ensures DecodeStep(EncodeChar(c) + tail) == (c, 2)
  {
    var x := c as int;
    var b := EncodeChar(c) + tail;
    assert b[0] == 0xC0 + x / 0x40 && b[1] == 0x80 + x % 0x40;
    assert Scalar2(b[0], b[1]) == x;
  }

  lemma DecodeStepThree(c: char, tail: seq<Byte>)
    requires 0x800 <= c as int < 0x1_0000
    ensures DecodeStep(EncodeChar(c) + tail) == (c, 3)
  {
    var x := c as int;
    var b := EncodeChar(c) + tail;
    assert b[0] == 0xE0 + x / 0x1000;
    assert b[1] == 0x80 + (x / 0x40) % 0x40;
    assert b[2] == 0x80 + x % 0x40;
    assert Scalar3(b[0], b[1], b[2]) == x;
  }

  lemma DecodeStepFour(c: char, tail: seq<Byte>)
    requires 0x1_0000 <= c as int
    ensures DecodeStep(EncodeChar(c) + tail) == (c, 4)
  {
    var x := c as int;
    var b := EncodeChar(c) + tail;
    assert b[0] == 0xF0 + x / 0x4_0000;
    assert b[1] == 0x80 + (x / 0x1000) % 0x40;
    assert b[2] == 0x80 + (x / 0x40) % 0x40;
    assert b[3] == 0x80 + x % 0x40;
    assert Scalar4(b[0], b[1], b[2], b[3]) == x;
  }

  /**
   The decoder accepts only shortest-form encodings: whenever a step yields a
   character other than U+FFFD, the bytes it consumed are that character's
   RFC 3629 encoding.
   */
  lemma DecodeStepSound(b: seq<Byte>)
    requires |b| > 0
    ensures DecodeStep(b).0 != Replacement ==> b[..DecodeStep(b).1] == EncodeChar(DecodeStep(b).0)
  {
    var (c, n) := DecodeStep(b);
    if c != Replacement {
      if n == 1 {
        assert b[..1] == [b[0]];
      } else if n == 2 {
        DecodeStepSoundTwo(b);
      } else if n == 3 {
        DecodeStepSoundThree(b);
      } else {
        DecodeStepSoundFour(b);
      }
    }
  }

  lemma DecodeStepSoundTwo(b: seq<Byte>)
    requires |b| >= 2 && 0xC2 <= b[0] <= 0xDF && InRange(b[1], 0x80, 0xBF)
    ensures b[..2] == EncodeChar(Scalar2(b[0], b[1]) as char)
  {
    var x := Scalar2(b[0], b[1]);
    assert x / 0x40 == b[0] - 0xC0 && x % 0x40 == b[1] - 0x80;
  }

  lemma DecodeStepSoundThree(b: seq<Byte>)
    requires |b| >= 3 && 0xE0 <= b[0] <= 0xEF
    requires InRange(b[1], if b[0] == 0xE0 then 0xA0 else 0x80, if b[0] == 0xED then 0x9F else 0xBF)
    requires InRange(b[2], 0x80, 0xBF)
    ensures b[..3] == EncodeChar(Scalar3(b[0], b[1], b[2]) as char)
  {
    var b0: int, b1: int, b2: int := b[0], b[1], b[2];
    var x := Scalar3(b0, b1, b2);
    assert x / 0x1000 == b0 - 0xE0;
    assert x / 0x40 == 0x40 * (b0 - 0xE0) + (b1 - 0x80);
    assert (x / 0x40) % 0x40 == b1 - 0x80;
    assert x % 0x40 == b2 - 0x80;
  }

  lemma DecodeStepSoundFour(b: seq<Byte>)
    requires |b| >= 4 && 0xF0 <= b[0] <= 0xF4
    requires InRange(b[1], if b[0] == 0xF0 then 0x90 else 0x80, if b[0] == 0xF4 then 0x8F else 0xBF)
    requires InRange(b[2], 0x80, 0xBF) && InRange(b[3], 0x80, 0xBF)
    ensures b[..4] == EncodeChar(Scalar4(b[0], b[1], b[2], b[3]) as char)
  {
    var b0: int, b1: int, b2: int, b3: int := b[0], b[1], b[2], b[3];
    var x := Scalar4(b0, b1, b2, b3);
    assert x / 0x4_0000 == b0 - 0xF0;
    assert x / 0x1000 == 0x40 * (b0 - 0xF0) + (b1 - 0x80);
    assert (x / 0x1000) % 0x40 == b1 - 0x80;
    assert x / 0x40 == 0x1000 * (b0 - 0xF0) + 0x40 * (b1 - 0x80) + (b2 - 0x80);
    assert (x / 0x40) % 0x40 == b2 - 0x80;
    assert x % 0x40 == b3 - 0x80;
  }

  /** Encoding distributes over concatenation. */
  lemma {:induction false} EncodeAppend(s: string, t: string)
    ensures Encode(s + t) == Encode(s) + Encode(t)
    decreases |s|
  {
    if s == [] {
      assert s + t == t;
    } else {
      assert (s + t)[1..] == s[1..] + t;
      EncodeAppend(s[1..], t);
    }
  }

  /** RFC 3629 round trip: decoding an encoding gives back the string. */
  lemma {:induction false} DecodeEncode(s: string)
    ensures Decode(Encode(s)) == s
    decreases |s|
  {
    if s != [] {
      var head := EncodeChar(s[0]);
      var b := Encode(s);
      assert b == head + Encode(s[1..]);
      DecodeStepEncodeChar(s[0], Encode(s[1..]));
      assert b[|head|..] == Encode(s[1..]);
      DecodeEncode(s[1..]);
    }
  }

  /**
   The default `TextDecoder` reads back the encoded string, except that a
   leading byte order mark is lost; with `ignoreBOM` set it reads back the
   whole string.
   */
  lemma TextDecodeEncode(s: string)
    ensures !StartsWithBom(s) ==> TextDecode(Encode(s)) == s
    ensures StartsWithBom(s) ==> TextDecode(Encode(s)) == s[1..]
    ensures TextDecode(Encode(s), ignoreBom := true) == s
  {
    DecodeEncode(s);
  }

  /** Encoding is injective: two strings with the same bytes are the same string. */
  lemma EncodeInjective(s: string, t: string)
    requires Encode(s) == Encode(t)
    ensures s == t
  {
    DecodeEncode(s);
    DecodeEncode(t);
  }
}
