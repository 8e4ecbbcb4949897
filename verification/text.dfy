/**
 * The length-prefixed text field both codecs use: one uint8 holding the
 * length of the string in characters, then the UTF-8 bytes of the string
 * packed as exactly that many bytes. Since the prefix counts characters
 * and the pack demands that many bytes, only an ASCII string encodes; a
 * decoder reads the prefix as a byte count and decodes those bytes as
 * UTF-8.
 */
module Text {
  import opened Wire
  import Utf8

  /** pack('uint8', len(s)) + pack('bytes<len(s)>', s.encode()) */
  function PrefixedText(s: string): Result<Bytes>
  {
    var prefix :- PackUint8(|s|);
    var body :- PackBytes(|s|, Utf8.Encode(s));
    Ok(prefix + body)
  }

  /** n := read('uint8'); read('bytes<n>').decode(), with the cursor at
      `at`: the text and the cursor position after it. */
  function DecodePrefixedAt(d: Bytes, at: nat): (r: Result<(string, nat)>)
    ensures r.Ok? ==> at < |d| && r.value.1 == at + 1 + d[at] as int <= |d|
  {
    if |d| < at + 1 || |d| < at + 1 + d[at] as int then Err(ReadPastEnd)
    else match Utf8.Decode(d[at + 1..at + 1 + d[at] as int])
      case None => Err(InvalidUtf8)
      case Some(text) => Ok((text, at + 1 + d[at] as int))
  }

  /** The decoders' step for one field: the text, with the cursor left
      just after it, or the error of the read or decode that fails. */
  method ReadText(reader: Reader) returns (r: Result<string>)
    requires reader.Valid()
    modifies reader`pos
    ensures reader.Valid()
    ensures var dec := DecodePrefixedAt(reader.data, old(reader.pos));
      (r.Ok? <==> dec.Ok?)
      && (r.Ok? ==> r.value == dec.value.0 && reader.pos == dec.value.1)
      && (r.Err? ==> r.error == dec.error)
  {
    ghost var at := reader.pos;
    var length :- reader.ReadUint8();
    assert length == reader.data[at];
    var raw :- reader.ReadBytes(length);
    assert raw == reader.data[at + 1..at + 1 + length as int];
    var text := Utf8.Decode(raw);
    if text.None? {
      return Err(InvalidUtf8);
    }
    return Ok(text.value);
  }

  /** Decoding a field is the same whether the buffer is cut just before
      it or not, up to where the cursor is counted from. */
  lemma PrefixedShift(d: Bytes, k: nat)
    requires k <= |d|
    ensures DecodePrefixedAt(d[k..], 0).Ok? <==> DecodePrefixedAt(d, k).Ok?
    ensures DecodePrefixedAt(d, k).Ok? ==>
      DecodePrefixedAt(d[k..], 0).value == (DecodePrefixedAt(d, k).value.0, DecodePrefixedAt(d, k).value.1 - k)
    ensures DecodePrefixedAt(d, k).Err? ==> DecodePrefixedAt(d[k..], 0).error == DecodePrefixedAt(d, k).error
  {
    if k < |d| && k + 1 + d[k] as int <= |d| {
      assert d[k..][1..1 + d[k] as int] == d[k + 1..k + 1 + d[k] as int];
    }
  }

  /** The field encodes exactly when the string has at most 255 characters
      and each of them is one UTF-8 byte; the field is then the count
      followed by the string's bytes. */
  lemma PrefixedTextShape(s: string)
    ensures PrefixedText(s).Ok? <==> |s| <= 255 && |Utf8.Encode(s)| == |s|
    ensures PrefixedText(s).Ok? <==> |s| <= 255 && Utf8.IsAscii(s)
    ensures PrefixedText(s).Ok? ==>
      PrefixedText(s).value == [|s|] + Utf8.Encode(s) && |PrefixedText(s).value| == 1 + |s|
    ensures |s| > 255 ==> PrefixedText(s) == Err(OutOfRange)
    ensures |s| <= 255 && !Utf8.IsAscii(s) ==> PrefixedText(s) == Err(LengthMismatch)
  {
    Utf8.EncodeLength(s);
    if s == [] {
      assert Utf8.Encode(s) == [];
    }
  }

  /** A field decodes back to its string, whatever precedes and follows it. */
  lemma PrefixedRoundTrip(s: string, before: Bytes, rest: Bytes)
    requires PrefixedText(s).Ok?
    ensures var f := PrefixedText(s).value;
      DecodePrefixedAt(before + f + rest, |before|) == Ok((s, |before| + |f|))
  {
    PrefixedTextShape(s);
    Utf8.EncodeLength(s);
    var f := PrefixedText(s).value;
    var d := before + f + rest;
    var at := |before|;
    assert d[at] == |s|;
    assert d[at + 1..at + 1 + d[at] as int] == Utf8.Encode(s);
    Utf8.DecodeEncode(s);
  }

  /** Only the field itself is read: bytes after it change nothing, and a
      buffer cut before its end fails with a read past the end. */
  lemma PrefixedCut(d: Bytes, at: nat, k: nat)
    requires DecodePrefixedAt(d, at).Ok?
    ensures var j := DecodePrefixedAt(d, at).value.1;
      (j <= k <= |d| ==> DecodePrefixedAt(d[..k], at) == DecodePrefixedAt(d, at))
      && (k < j ==> DecodePrefixedAt(d[..k], at) == Err(ReadPastEnd))
  {
    var j := DecodePrefixedAt(d, at).value.1;
    if j <= k <= |d| {
      assert d[..k][at + 1..j] == d[at + 1..j];
    }
  }

  lemma PrefixedExtend(d: Bytes, at: nat, rest: Bytes)
    requires DecodePrefixedAt(d, at).Ok?
    ensures DecodePrefixedAt(d + rest, at) == DecodePrefixedAt(d, at)
  {
    var j := DecodePrefixedAt(d, at).value.1;
    assert (d + rest)[at + 1..j] == d[at + 1..j];
  }

  /** Writing back a decoded string reproduces the bytes it was read from;
      this fails exactly when those bytes are not all ASCII. */
  lemma PrefixedEcho(d: Bytes, at: nat)
    requires DecodePrefixedAt(d, at).Ok?
    ensures var (text, j) := DecodePrefixedAt(d, at).value;
      (PrefixedText(text).Ok? <==> Utf8.AllAscii(d[at + 1..j]))
      && (PrefixedText(text).Ok? ==> PrefixedText(text).value == d[at..j])
  {
    var (text, j) := DecodePrefixedAt(d, at).value;
    var b := d[at + 1..j];
    Utf8.DecodeLength(b, text);
    PrefixedTextShape(text);
    if Utf8.AllAscii(b) {
      Utf8.DecodeAsciiEncodes(b, text);
      assert d[at..j] == [d[at]] + b;
    }
  }
}
