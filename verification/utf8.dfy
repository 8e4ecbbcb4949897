/**
 * UTF-8 as Python's str.encode('utf-8') and bytes.decode('utf-8') (strict)
 * perform it, together with the facts about ASCII text that decide when the
 * sockssl's character-count length prefixes agree with the encoded bytes.
 */
module Utf8 {
  import opened Wire

  predicate IsAscii(s: string)
  {
    forall i | 0 <= i < |s| :: s[i] as int < 0x80
  }

  predicate AllAscii(b: Bytes)
  {
    forall i | 0 <= i < |b| :: b[i] < 0x80
  }

  /** The bytes of an ASCII text, one per character. */
  function AsciiBytes(s: string): (b: Bytes)
    requires IsAscii(s)
    ensures |b| == |s|
  {
    if s == [] then [] else [s[0] as int] + AsciiBytes(s[1..])
  }

  /** The text of ASCII bytes, one character per byte. */
  function AsciiText(b: Bytes): (s: string)
    requires AllAscii(b)
    ensures |s| == |b|
  {
    if b == [] then [] else [b[0] as char] + AsciiText(b[1..])
  }

  lemma {:induction false} AsciiBytesText(s: string)
    requires IsAscii(s)
    ensures AllAscii(AsciiBytes(s)) && AsciiText(AsciiBytes(s)) == s
  {
    if s != [] {
      AsciiBytesText(s[1..]);
    }
  }

  lemma {:induction false} AsciiTextBytes(b: Bytes)
    requires AllAscii(b)
    ensures IsAscii(AsciiText(b)) && AsciiBytes(AsciiText(b)) == b
  {
    if b != [] {
      AsciiTextBytes(b[1..]);
    }
  }

  /** The UTF-8 encoding of one character: 1 to 4 bytes. */
  function EncodeChar(c: char): (b: Bytes)
  {
    var x := c as int;
    if x < 0x80 then [x]
    else if x < 0x800 then [0xC0 + x / 0x40, 0x80 + x % 0x40]
    else if x < 0x1_0000 then [0xE0 + x / 0x1000, 0x80 + (x / 0x40) % 0x40, 0x80 + x % 0x40]
    else [0xF0 + x / 0x4_0000, 0x80 + (x / 0x1000) % 0x40, 0x80 + (x / 0x40) % 0x40, 0x80 + x % 0x40]
  }

  /** str.encode('utf-8') */
  function Encode(s: string): Bytes
  {
    if s == [] then [] else EncodeChar(s[0]) + Encode(s[1..])
  }

  /** The encoding is never shorter than the text, and has exactly one byte
      per character precisely when the text is ASCII; ASCII encodes to
      itself. */
  lemma {:induction false} EncodeLength(s: string)
    ensures |Encode(s)| >= |s|
    ensures |Encode(s)| == |s| <==> IsAscii(s)
    ensures IsAscii(s) ==> Encode(s) == AsciiBytes(s)
  {
    if s != [] {
      EncodeLength(s[1..]);
      assert IsAscii(s) <==> s[0] as int < 0x80 && IsAscii(s[1..]) by {
        if s[0] as int < 0x80 && IsAscii(s[1..]) {
          forall i | 0 <= i < |s| ensures s[i] as int < 0x80 {
            if i > 0 { assert s[i] == s[1..][i - 1]; }
          }
        }
      }
    }
  }

  predicate IsContinuation(b: byte) { 0x80 <= b <= 0xBF }

  /** Decodes the well-formed UTF-8 sequence at the start of b (Unicode
      Table 3-7: no overlong forms, no surrogates, nothing above U+10FFFF),
      giving the character and the number of bytes it takes. */
  function DecodeChar(b: Bytes): (r: Option<(char, nat)>)
    requires |b| > 0
    ensures r.Some? ==> 1 <= r.value.1 <= |b|
    ensures r.Some? ==> (r.value.1 == 1 <==> b[0] < 0x80)
    ensures r.Some? ==> (r.value.0 as int < 0x80 <==> b[0] < 0x80)
    ensures b[0] < 0x80 ==> r == Some((b[0] as char, 1))
  {
    var b0 := b[0] as int;
    if b0 < 0x80 then
      Some((b0 as char, 1))
    else if 0xC2 <= b0 <= 0xDF then
      if |b| >= 2 && IsContinuation(b[1]) then
        Some((((b0 - 0xC0) * 0x40 + (b[1] as int - 0x80)) as char, 2))
      else None
    else if 0xE0 <= b0 <= 0xEF then
      var lo := if b0 == 0xE0 then 0xA0 else 0x80;
      var hi := if b0 == 0xED then 0x9F else 0xBF;
      if |b| >= 3 && lo <= b[1] <= hi && IsContinuation(b[2]) then
        Some((((b0 - 0xE0) * 0x1000 + (b[1] as int - 0x80) * 0x40 + (b[2] as int - 0x80)) as char, 3))
      else None
    else if 0xF0 <= b0 <= 0xF4 then
      var lo := if b0 == 0xF0 then 0x90 else 0x80;
      var hi := if b0 == 0xF4 then 0x8F else 0xBF;
      if |b| >= 4 && lo <= b[1] <= hi && IsContinuation(b[2]) && IsContinuation(b[3]) then
        Some((((b0 - 0xF0) * 0x4_0000 + (b[1] as int - 0x80) * 0x1000 + (b[2] as int - 0x80) * 0x40 + (b[3] as int - 0x80)) as char, 4))
      else None
    else
      None
  }

  /** bytes.decode('utf-8'): None when the bytes are not well-formed UTF-8. */
  function Decode(b: Bytes): Option<string>
    decreases |b|
  {
    if b == [] then Some([])
    else match DecodeChar(b)
      case None => None
      case Some((c, w)) =>
        match Decode(b[w..])
        case None => None
        case Some(rest) => Some([c] + rest)
  }

  /** A decoded text has at most as many characters as there were bytes; it
      has exactly as many, and is ASCII, precisely when the bytes are ASCII. */
  lemma {:induction false} DecodeLength(b: Bytes, s: string)
    requires Decode(b) == Some(s)
    ensures |s| <= |b|
    ensures |s| == |b| <==> AllAscii(b)
    ensures IsAscii(s) <==> AllAscii(b)
  {
    if b != [] {
      var (c, w) := DecodeChar(b).value;
      var rest := Decode(b[w..]).value;
      assert s == [c] + rest;
      DecodeLength(b[w..], rest);
      assert AllAscii(b) <==> b[0] < 0x80 && AllAscii(b[1..]) by {
        if b[0] < 0x80 && AllAscii(b[1..]) {
          forall i | 0 <= i < |b| ensures b[i] < 0x80 {
            if i > 0 { assert b[i] == b[1..][i - 1]; }
          }
        }
      }
      assert IsAscii(s) <==> c as int < 0x80 && IsAscii(rest) by {
        assert s[0] == c;
        assert forall i | 0 <= i < |rest| :: rest[i] == s[i + 1];
        if c as int < 0x80 && IsAscii(rest) {
          forall i | 0 <= i < |s| ensures s[i] as int < 0x80 {
            if i > 0 { assert s[i] == rest[i - 1]; }
          }
        }
      }
    }
  }

  /** ASCII bytes always decode, to the text with the same character codes. */
  lemma {:induction false} DecodeAscii(b: Bytes)
    requires AllAscii(b)
    ensures Decode(b) == Some(AsciiText(b))
  {
    if b != [] {
      DecodeAscii(b[1..]);
    }
  }

  /** Decoding and then encoding gives back the bytes whenever the decoded
      text is ASCII. */
  lemma DecodeAsciiEncodes(b: Bytes, s: string)
    requires Decode(b) == Some(s) && IsAscii(s)
    ensures Encode(s) == b && AsciiBytes(s) == b
  {
    DecodeLength(b, s);
    DecodeAscii(b);
    AsciiTextBytes(b);
    EncodeLength(s);
  }

  /** Every character's encoding decodes back to it, whatever follows. */
  lemma DecodeEncodeChar(c: char, rest: Bytes)
    ensures |EncodeChar(c) + rest| > 0
    ensures DecodeChar(EncodeChar(c) + rest) == Some((c, |EncodeChar(c)|))
  {
    var x := c as int;
    if x < 0x80 {
    } else if x < 0x800 {
      DecodeEncodeTwo(c, rest);
    } else if x < 0x1_0000 {
      DecodeEncodeThree(c, rest);
    } else {
      DecodeEncodeFour(c, rest);
    }
  }

  lemma DecodeEncodeTwo(c: char, rest: Bytes)
    requires 0x80 <= c as int < 0x800
    ensures DecodeChar(EncodeChar(c) + rest) == Some((c, 2))
  {
    var x := c as int;
    var b := EncodeChar(c) + rest;
    assert b[0] == 0xC0 + x / 0x40 && b[1] == 0x80 + x % 0x40;
    assert (x / 0x40) * 0x40 + x % 0x40 == x;
  }

  lemma DecodeEncodeThree(c: char, rest: Bytes)
    requires 0x800 <= c as int < 0x1_0000
    ensures DecodeChar(EncodeChar(c) + rest) == Some((c, 3))
  {
    var x := c as int;
    var q := x / 0x40;
    var b := EncodeChar(c) + rest;
    assert x / 0x1000 == q / 0x40;
    assert b[0] == 0xE0 + q / 0x40 && b[1] == 0x80 + q % 0x40 && b[2] == 0x80 + x % 0x40;
    assert q * 0x40 + x % 0x40 == x;
    assert (q / 0x40) * 0x40 + q % 0x40 == q;
    assert q / 0x40 == 0 ==> q % 0x40 >= 0x20;
    assert q / 0x40 == 0xD ==> q % 0x40 < 0x20;
  }

  lemma DecodeEncodeFour(c: char, rest: Bytes)
    requires 0x1_0000 <= c as int
    ensures DecodeChar(EncodeChar(c) + rest) == Some((c, 4))
  {
    var x := c as int;
    var q := x / 0x40;
    var p := q / 0x40;
    var b := EncodeChar(c) + rest;
    assert x / 0x1000 == p;
    assert x / 0x4_0000 == p / 0x40;
    assert b[0] == 0xF0 + p / 0x40 && b[1] == 0x80 + p % 0x40;
    assert b[2] == 0x80 + q % 0x40 && b[3] == 0x80 + x % 0x40;
    assert q * 0x40 + x % 0x40 == x;
    assert p * 0x40 + q % 0x40 == q;
    assert (p / 0x40) * 0x40 + p % 0x40 == p;
    assert p / 0x40 == 0 ==> p % 0x40 >= 0x10;
    assert p / 0x40 == 4 ==> p % 0x40 < 0x10;
  }

  /** Round trip: every text decodes from its encoding. */
  lemma {:induction false} DecodeEncode(s: string)
    ensures Decode(Encode(s)) == Some(s)
  {
    if s != [] {
      var e := EncodeChar(s[0]);
      DecodeEncodeChar(s[0], Encode(s[1..]));
      assert Encode(s) == e + Encode(s[1..]);
      assert (e + Encode(s[1..]))[|e|..] == Encode(s[1..]);
      DecodeEncode(s[1..]);
      assert s == [s[0]] + s[1..];
    }
  }

  /** The sequence DecodeChar accepts is exactly the encoding of the
      character it returns. */
  lemma EncodeDecodeChar(b: Bytes)
    requires |b| > 0 && DecodeChar(b).Some?
    ensures EncodeChar(DecodeChar(b).value.0) == b[..DecodeChar(b).value.1]
  {
    var w := DecodeChar(b).value.1;
    if w == 2 {
      EncodeTwo(b[0], b[1]);
    } else if w == 3 {
      EncodeThree(b[0], b[1], b[2]);
    } else if w == 4 {
      EncodeFour(b[0], b[1], b[2], b[3]);
    }
  }

  lemma EncodeTwo(b0: int, b1: int)
    requires 0xC2 <= b0 <= 0xDF && 0x80 <= b1 <= 0xBF
    ensures var x := (b0 - 0xC0) * 0x40 + (b1 - 0x80);
      0x80 <= x < 0x800 && EncodeChar(x as char) == [b0, b1]
  {
    var x := (b0 - 0xC0) * 0x40 + (b1 - 0x80);
    assert x / 0x40 == b0 - 0xC0 && x % 0x40 == b1 - 0x80;
  }

  lemma EncodeThree(b0: int, b1: int, b2: int)
    requires 0xE0 <= b0 <= 0xEF && 0x80 <= b1 <= 0xBF && 0x80 <= b2 <= 0xBF
    requires b0 == 0xE0 ==> b1 >= 0xA0
    requires b0 == 0xED ==> b1 <= 0x9F
    ensures var x := (b0 - 0xE0) * 0x1000 + (b1 - 0x80) * 0x40 + (b2 - 0x80);
      0x800 <= x < 0xD800 || 0xE000 <= x < 0x1_0000
    ensures var x := (b0 - 0xE0) * 0x1000 + (b1 - 0x80) * 0x40 + (b2 - 0x80);
      EncodeChar(x as char) == [b0, b1, b2]
  {
    var q := (b0 - 0xE0) * 0x40 + (b1 - 0x80);
    var x := q * 0x40 + (b2 - 0x80);
    assert x == (b0 - 0xE0) * 0x1000 + (b1 - 0x80) * 0x40 + (b2 - 0x80);
    assert x / 0x40 == q && x % 0x40 == b2 - 0x80;
    assert q / 0x40 == b0 - 0xE0 && q % 0x40 == b1 - 0x80;
    assert x / 0x1000 == q / 0x40;
  }

  lemma EncodeFour(b0: int, b1: int, b2: int, b3: int)
    requires 0xF0 <= b0 <= 0xF4 && 0x80 <= b1 <= 0xBF && 0x80 <= b2 <= 0xBF && 0x80 <= b3 <= 0xBF
    requires b0 == 0xF0 ==> b1 >= 0x90
    requires b0 == 0xF4 ==> b1 <= 0x8F
    ensures var x := (b0 - 0xF0) * 0x4_0000 + (b1 - 0x80) * 0x1000 + (b2 - 0x80) * 0x40 + (b3 - 0x80);
      0x1_0000 <= x < 0x11_0000
    ensures var x := (b0 - 0xF0) * 0x4_0000 + (b1 - 0x80) * 0x1000 + (b2 - 0x80) * 0x40 + (b3 - 0x80);
      EncodeChar(x as char) == [b0, b1, b2, b3]
  {
    var p := (b0 - 0xF0) * 0x40 + (b1 - 0x80);
    var q := p * 0x40 + (b2 - 0x80);
    var x := q * 0x40 + (b3 - 0x80);
    assert x == (b0 - 0xF0) * 0x4_0000 + (b1 - 0x80) * 0x1000 + (b2 - 0x80) * 0x40 + (b3 - 0x80);
    assert x / 0x40 == q && x % 0x40 == b3 - 0x80;
    assert q / 0x40 == p && q % 0x40 == b2 - 0x80;
    assert p / 0x40 == b0 - 0xF0 && p % 0x40 == b1 - 0x80;
    assert x / 0x1000 == p;
    assert x / 0x4_0000 == p / 0x40;
  }

  /** Round trip the other way: well-formed UTF-8 is the encoding of the
      text it decodes to. */
  lemma {:induction false} EncodeDecode(b: Bytes)
    requires Decode(b).Some?
    ensures Encode(Decode(b).value) == b
  {
    if b != [] {
      DecodeStep(b);
      var c := DecodeChar(b).value.0;
      var w := DecodeChar(b).value.1;
      var tail := Decode(b[w..]).value;
      EncodeDecodeChar(b);
      EncodeDecode(b[w..]);
      EncodeCons(c, tail);
      Rejoin(b, w, EncodeChar(c), Encode(tail));
    }
  }

  lemma Rejoin(b: Bytes, w: nat, x: Bytes, y: Bytes)
    requires w <= |b| && x == b[..w] && y == b[w..]
    ensures x + y == b
  {
    assert b == b[..w] + b[w..];
  }

  lemma EncodeCons(c: char, s: string)
    ensures Encode([c] + s) == EncodeChar(c) + Encode(s)
  {
    assert ([c] + s)[1..] == s;
  }

  /** One step of decoding: the first character, then the rest. */
  lemma DecodeStep(b: Bytes)
    requires b != [] && Decode(b).Some?
    ensures DecodeChar(b).Some? && Decode(b[DecodeChar(b).value.1..]).Some?
    ensures var (c, w) := DecodeChar(b).value;
      Decode(b).value == [c] + Decode(b[w..]).value
  {
  }
}
