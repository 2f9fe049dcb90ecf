/**
 * UTF-8 as the codec uses it: `str::from_utf8` decides whether a byte buffer
 * is text (the well-formed sequences of Table 3-7 of the Unicode Standard,
 * the same set as section 4 of RFC 3629), and `String::into_bytes` /
 * `str::as_bytes` give back the encoding of a text.
 */
module Utf8 {
  import opened Wrappers

  newtype byte = b: int | 0 <= b < 256

  predicate IsContinuation(b: byte) {
    0x80 <= b <= 0xBF
  }

  /** Number of bytes in the sequence that a lead byte starts; 0 when it cannot lead one. */
  function SequenceWidth(lead: byte): nat {
    if lead < 0x80 then 1
    else if 0xC2 <= lead <= 0xDF then 2
    else if 0xE0 <= lead <= 0xEF then 3
    else if 0xF0 <= lead <= 0xF4 then 4
    else 0
  }

  /** Whether `second` may follow `lead` (the narrowed ranges exclude overlong forms, surrogates and values above U+10FFFF). */
  predicate SecondByteFits(lead: byte, second: byte) {
    if lead == 0xE0 then 0xA0 <= second <= 0xBF
    else if lead == 0xED then 0x80 <= second <= 0x9F
    else if lead == 0xF0 then 0x90 <= second <= 0xBF
    else if lead == 0xF4 then 0x80 <= second <= 0x8F
    else IsContinuation(second)
  }

  /** The character a well-formed sequence at the start of `b` encodes, with the sequence's width. */
  function DecodeFirst(b: seq<byte>): (r: Option<(char, nat)>)
    ensures r.Some? ==> 1 <= r.value.1 <= 4 && r.value.1 <= |b|
  {
    if |b| == 0 then None
    else
      var w := SequenceWidth(b[0]);
      if w == 0 || |b| < w then None
      else if w == 1 then Some((b[0] as int as char, 1))
      else if !SecondByteFits(b[0], b[1]) then None
      else if w == 2 then
        Some((((b[0] as int - 0xC0) * 64 + (b[1] as int - 0x80)) as char, 2))
      else if !IsContinuation(b[2]) then None
      else if w == 3 then
        Some((((b[0] as int - 0xE0) * 4096 + (b[1] as int - 0x80) * 64 + (b[2] as int - 0x80)) as char, 3))
      else if !IsContinuation(b[3]) then None
      else
        Some((((b[0] as int - 0xF0) * 262144 + (b[1] as int - 0x80) * 4096
               + (b[2] as int - 0x80) * 64 + (b[3] as int - 0x80)) as char, 4))
  }

  /** `str::from_utf8`: the text the bytes encode, or None when they are not well-formed UTF-8. */
  function Decode(b: seq<byte>): Option<string>
    decreases |b|
  {
    if b == [] then Some([])
    else match DecodeFirst(b)
      case None => None
      case Some((c, w)) =>
        match Decode(b[w..])
        case None => None
        case Some(s) => Some([c] + s)
  }

  /** The shortest UTF-8 sequence for one character. */
  function EncodeChar(c: char): (r: seq<byte>)
    ensures 1 <= |r| <= 4
    ensures (|r| == 1) == (c as int < 0x80)
    ensures |r| == 1 ==> r[0] as int == c as int
    ensures |r| > 1 ==> forall i :: 0 <= i < |r| ==> r[i] >= 0x80
  {
    var n := c as int;
    if n < 0x80 then [n as byte]
    else if n < 0x800 then [(0xC0 + n / 64) as byte, (0x80 + n % 64) as byte]
    else if n < 0x10000 then
      [(0xE0 + n / 4096) as byte, (0x80 + n / 64 % 64) as byte, (0x80 + n % 64) as byte]
    else
      [(0xF0 + n / 262144) as byte, (0x80 + n / 4096 % 64) as byte,
       (0x80 + n / 64 % 64) as byte, (0x80 + n % 64) as byte]
  }

  /** `String::into_bytes`: the UTF-8 encoding of a text. */
  function Encode(s: string): seq<byte> {
    if s == [] then [] else EncodeChar(s[0]) + Encode(s[1..])
  }

  predicate IsAscii(s: string) {
    forall i :: 0 <= i < |s| ==> s[i] as int < 0x80
  }

  lemma DivMod64(q: int, r: int)
    requires 0 <= q && 0 <= r < 64
    ensures (q * 64 + r) / 64 == q && (q * 64 + r) % 64 == r
  {
  }

  /** Decoding the encoding of a character, followed by anything, gives that character back. */
  lemma DecodeFirstEncodeChar(c: char, rest: seq<byte>)
    ensures DecodeFirst(EncodeChar(c) + rest) == Some((c, |EncodeChar(c)|))
  {
    var n := c as int;
    if n < 0x80 {
    } else if n < 0x800 {
      DecodeFirstTwo(c, rest);
    } else if n < 0x10000 {
      DecodeFirstThree(c, rest);
    } else {
      DecodeFirstFour(c, rest);
    }
  }

  lemma DecodeFirstTwo(c: char, rest: seq<byte>)
    requires 0x80 <= c as int < 0x800
    ensures DecodeFirst(EncodeChar(c) + rest) == Some((c, 2))
  {
    var n := c as int;
    var x, y := n / 64, n % 64;
    DivMod64(x, y);
    var b := EncodeChar(c) + rest;
    assert b[0] as int == 0xC0 + x && b[1] as int == 0x80 + y;
  }

  lemma DecodeFirstThree(c: char, rest: seq<byte>)
    requires 0x800 <= c as int < 0x10000
    ensures DecodeFirst(EncodeChar(c) + rest) == Some((c, 3))
  {
    var n := c as int;
    var hi, mid, lo := n / 4096, n / 64 % 64, n % 64;
    assert n / 64 == hi * 64 + mid;
    assert n == hi * 4096 + mid * 64 + lo;
    var b := EncodeChar(c) + rest;
    assert b[0] as int == 0xE0 + hi && b[1] as int == 0x80 + mid && b[2] as int == 0x80 + lo;
  }

  lemma DecodeFirstFour(c: char, rest: seq<byte>)
    requires 0x10000 <= c as int
    ensures DecodeFirst(EncodeChar(c) + rest) == Some((c, 4))
  {
    var n := c as int;
    var top, hi, mid, lo := n / 262144, n / 4096 % 64, n / 64 % 64, n % 64;
    assert n / 4096 == top * 64 + hi;
    assert n / 64 == (top * 64 + hi) * 64 + mid;
    assert n == top * 262144 + hi * 4096 + mid * 64 + lo;
    var b := EncodeChar(c) + rest;
    assert b[0] as int == 0xF0 + top && b[1] as int == 0x80 + hi;
    assert b[2] as int == 0x80 + mid && b[3] as int == 0x80 + lo;
  }

  lemma EncodeTwo(x: int, y: int)
    requires 2 <= x < 32 && 0 <= y < 64
    ensures EncodeChar((x * 64 + y) as char) == [(0xC0 + x) as byte, (0x80 + y) as byte]
  {
    DivMod64(x, y);
  }

  lemma EncodeThree(x: int, y: int, z: int)
    requires 0 <= x < 16 && 0 <= y < 64 && 0 <= z < 64
    requires x == 0 ==> y >= 32
    requires var n := x * 4096 + y * 64 + z; n < 0xD800 || 0xE000 <= n
    ensures var n := x * 4096 + y * 64 + z;
      EncodeChar(n as char) == [(0xE0 + x) as byte, (0x80 + y) as byte, (0x80 + z) as byte]
  {
    var n := x * 4096 + y * 64 + z;
    DivMod64(x * 64 + y, z);
    DivMod64(x, y);
    assert n / 64 == x * 64 + y;
    assert n / 4096 == x;
  }

  lemma EncodeFour(x: int, y: int, z: int, t: int)
    requires 0 <= x < 5 && 0 <= y < 64 && 0 <= z < 64 && 0 <= t < 64
    requires x == 0 ==> y >= 16
    requires x == 4 ==> y < 16
    ensures var n := x * 262144 + y * 4096 + z * 64 + t;
      EncodeChar(n as char)
        == [(0xF0 + x) as byte, (0x80 + y) as byte, (0x80 + z) as byte, (0x80 + t) as byte]
  {
    var n := x * 262144 + y * 4096 + z * 64 + t;
    DivMod64((x * 64 + y) * 64 + z, t);
    DivMod64(x * 64 + y, z);
    DivMod64(x, y);
    assert n / 64 == (x * 64 + y) * 64 + z;
    assert n / 4096 == x * 64 + y;
    assert n / 262144 == x;
  }

  /** A well-formed first sequence is exactly the encoding of the character it decodes to. */
  lemma EncodeCharDecodeFirst(b: seq<byte>)
    requires DecodeFirst(b).Some?
    ensures EncodeChar(DecodeFirst(b).value.0) == b[..DecodeFirst(b).value.1]
  {
    var w := SequenceWidth(b[0]);
    if w == 2 {
      EncodeCharDecodeTwo(b);
    } else if w == 3 {
      EncodeCharDecodeThree(b);
    } else if w == 4 {
      EncodeCharDecodeFour(b);
    }
  }

  lemma EncodeCharDecodeTwo(b: seq<byte>)
    requires DecodeFirst(b).Some? && SequenceWidth(b[0]) == 2
    ensures EncodeChar(DecodeFirst(b).value.0) == b[..2]
  {
    EncodeTwo(b[0] as int - 0xC0, b[1] as int - 0x80);
  }

  lemma EncodeCharDecodeThree(b: seq<byte>)
    requires DecodeFirst(b).Some? && SequenceWidth(b[0]) == 3
    ensures EncodeChar(DecodeFirst(b).value.0) == b[..3]
  {
    EncodeThree(b[0] as int - 0xE0, b[1] as int - 0x80, b[2] as int - 0x80);
  }

  lemma EncodeCharDecodeFour(b: seq<byte>)
    requires DecodeFirst(b).Some? && SequenceWidth(b[0]) == 4
    ensures EncodeChar(DecodeFirst(b).value.0) == b[..4]
  {
    EncodeFour(b[0] as int - 0xF0, b[1] as int - 0x80, b[2] as int - 0x80, b[3] as int - 0x80);
  }

  lemma {:induction false} EncodeAppend(s: string, t: string)
    ensures Encode(s + t) == Encode(s) + Encode(t)
  {
    if s != [] {
      assert (s + t)[0] == s[0] && (s + t)[1..] == s[1..] + t;
      EncodeAppend(s[1..], t);
      var e := EncodeChar(s[0]);
      assert Encode(s + t) == e + (Encode(s[1..]) + Encode(t));
      assert Encode(s) == e + Encode(s[1..]);
    } else {
      assert s + t == t;
    }
  }

  /** Round trip: every text decodes from its own encoding. */
  lemma {:induction false} DecodeEncode(s: string)
    ensures Decode(Encode(s)) == Some(s)
  {
    if s != [] {
      var e := EncodeChar(s[0]);
      DecodeFirstEncodeChar(s[0], Encode(s[1..]));
      assert Encode(s) == e + Encode(s[1..]);
      assert (e + Encode(s[1..]))[|e|..] == Encode(s[1..]);
      DecodeEncode(s[1..]);
      assert s == [s[0]] + s[1..];
    }
  }

  /** Round trip: bytes that decode are the encoding of what they decode to. */
  lemma {:induction false} EncodeDecode(b: seq<byte>)
    requires Decode(b).Some?
    ensures Encode(Decode(b).value) == b
    decreases |b|
  {
    if b != [] {
      var (c, w) := DecodeFirst(b).value;
      DecodeCons(b);
      EncodeDecode(b[w..]);
      EncodeDecodeStep(b, c, w, Decode(b[w..]).value);
    }
  }

  lemma EncodeDecodeStep(b: seq<byte>, c: char, w: nat, s: string)
    requires DecodeFirst(b) == Some((c, w)) && Encode(s) == b[w..]
    ensures Encode([c] + s) == b
  {
    EncodeCharDecodeFirst(b);
    EncodeCons(c, s);
    assert b == b[..w] + b[w..];
  }

  lemma DecodeCons(b: seq<byte>)
    requires b != [] && Decode(b).Some?
    ensures DecodeFirst(b).Some? && Decode(b[DecodeFirst(b).value.1..]).Some?
    ensures Decode(b).value == [DecodeFirst(b).value.0] + Decode(b[DecodeFirst(b).value.1..]).value
  {
  }

  lemma EncodeCons(c: char, s: string)
    ensures Encode([c] + s) == EncodeChar(c) + Encode(s)
  {
    assert ([c] + s)[0] == c && ([c] + s)[1..] == s;
  }

  /** Only the encoding of NUL contains the zero byte. */
  lemma {:induction false} EncodeHasNul(s: string)
    ensures (0 in Encode(s)) == ('\0' in s)
  {
    if s != [] {
      EncodeHasNul(s[1..]);
      assert s == [s[0]] + s[1..];
    }
  }

  /** On ASCII text the encoding is the character codes, one byte each. */
  lemma {:induction false} EncodeAscii(s: string)
    requires IsAscii(s)
    ensures |Encode(s)| == |s|
    ensures forall i :: 0 <= i < |s| ==> Encode(s)[i] as int == s[i] as int
  {
    if s != [] {
      EncodeAscii(s[1..]);
    }
  }
}
