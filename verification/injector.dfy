/**
 * The injector handshake frame the initiator sends to the relay node and
 * the relay node echoes back:
 *
 *   VERSION (1) | n | secret (n bytes) | m | host (m bytes) | port (2, big-endian)
 *
 * n and m are the character counts of the secret and the destination
 * host (see module Text).
 */
module Injector {
  import opened Wire
  import Utf8
  import Text

  const Version: byte := 0x01

  datatype Handshake = Handshake(version: byte, password: string, host: string, port: int)

  /** do_handshake: the frame, or the error the first failing pack raises. */
  function EncodeFrame(password: string, host: string, port: int): Result<Bytes>
  {
    var secret :- Text.PrefixedText(password);
    var dest :- Text.PrefixedText(host);
    if !(0 <= port < 0x1_0000) then Err(OutOfRange)
    else Ok([Version] + secret + dest + Uint16Be(port))
  }

  /** get_handshake: version, the secret, the host, the port, read in that
      order; the first read or decode that fails decides the error. */
  function DecodeFrame(d: Bytes): Result<Handshake>
  {
    if |d| < 1 then Err(ReadPastEnd)
    else
      var secret :- Text.DecodePrefixedAt(d, 1);
      var dest :- Text.DecodePrefixedAt(d, secret.1);
      var n := dest.1;
      if |d| < n + 2 then Err(ReadPastEnd)
      else Ok(Handshake(d[0], secret.0, dest.0, Uint16Value(d[n], d[n + 1])))
  }

  /** Where the host field of a frame starts. */
  function HostAt(d: Bytes): nat
    requires DecodeFrame(d).Ok?
  {
    Text.DecodePrefixedAt(d, 1).value.1
  }

  /** The number of bytes a decodable frame occupies. */
  function FrameLength(d: Bytes): (n: nat)
    requires DecodeFrame(d).Ok?
    ensures 5 <= n <= |d|
  {
    Text.DecodePrefixedAt(d, HostAt(d)).value.1 + 2
  }

  method DoHandshake(password: string, host: string, port: int) returns (r: Result<Bytes>)
    ensures r == EncodeFrame(password, host, port)
  {
    Text.PrefixedTextShape(password);
    Text.PrefixedTextShape(host);
    var data: Bytes := [];
    data := data + PackUint8(Version).value;

    var length := |password|;
    var chunk :- PackUint8(length);
    data := data + chunk;
    chunk :- PackBytes(length, Utf8.Encode(password));
    data := data + chunk;
    assert data == [Version] + Text.PrefixedText(password).value;

    length := |host|;
    chunk :- PackUint8(length);
    data := data + chunk;
    chunk :- PackBytes(length, Utf8.Encode(host));
    data := data + chunk;
    assert data == [Version] + Text.PrefixedText(password).value + Text.PrefixedText(host).value;

    chunk :- PackUint16(port);
    data := data + chunk;
    return Ok(data);
  }

  method GetHandshake(data: Bytes) returns (r: Result<Handshake>)
    ensures r == DecodeFrame(data)
  {
    var reader := new Reader(data);
    var version :- reader.ReadUint8();
    var password :- Text.ReadText(reader);
    var host :- Text.ReadText(reader);
    var port :- reader.ReadUint16();
    return Ok(Handshake(version, password, host, port));
  }

  // ---------------------------------------------------------------------
  // Properties of the frame

  /** A frame can be built exactly when secret and host have at most 255
      characters, each a single UTF-8 byte, and the port fits 16 bits;
      errors are raised in the order the fields are packed. The frame is
      then the documented layout, 5 + |secret| + |host| bytes long,
      starting with the version. */
  lemma EncodeFrameShape(password: string, host: string, port: int)
    ensures EncodeFrame(password, host, port).Ok? <==>
      |password| <= 255 && |Utf8.Encode(password)| == |password| &&
      |host| <= 255 && |Utf8.Encode(host)| == |host| &&
      0 <= port < 0x1_0000
    ensures EncodeFrame(password, host, port).Ok? ==>
      var f := EncodeFrame(password, host, port).value;
      f == [Version, |password|] + Utf8.Encode(password) + [|host|] + Utf8.Encode(host) + Uint16Be(port)
      && |f| == 5 + |password| + |host|
      && f[0] == Version
    ensures |password| > 255 ==> EncodeFrame(password, host, port) == Err(OutOfRange)
    ensures |password| <= 255 && !Utf8.IsAscii(password) ==> EncodeFrame(password, host, port) == Err(LengthMismatch)
  {
    Text.PrefixedTextShape(password);
    Text.PrefixedTextShape(host);
    if EncodeFrame(password, host, port).Ok? {
      var f := EncodeFrame(password, host, port).value;
      assert [Version] + ([|password|] + Utf8.Encode(password)) == [Version, |password|] + Utf8.Encode(password);
    }
  }

  /** Round trip: a frame decodes to version 1 and the fields it was built
      from, whatever bytes follow it, and occupies exactly its own length. */
  lemma FrameRoundTrip(password: string, host: string, port: int, rest: Bytes)
    requires EncodeFrame(password, host, port).Ok?
    ensures var f := EncodeFrame(password, host, port).value;
      DecodeFrame(f + rest) == Ok(Handshake(Version, password, host, port))
      && FrameLength(f + rest) == |f|
  {
    EncodeLayout(password, host, port);
    var secret := Text.PrefixedText(password).value;
    var dest := Text.PrefixedText(host).value;
    var be := Uint16Be(port);
    var f := EncodeFrame(password, host, port).value;
    var d := f + rest;
    assert d == [Version] + secret + (dest + be + rest);
    Text.PrefixedRoundTrip(password, [Version], dest + be + rest);
    assert d == [Version] + secret + dest + (be + rest);
    Text.PrefixedRoundTrip(host, [Version] + secret, be + rest);
    var n := 1 + |secret| + |dest|;
    assert d[n] == be[0] && d[n + 1] == be[1];
    Uint16RoundTrip(port);
    FieldsDecode(d, password, host, 1 + |secret|, n);
  }

  /** Only a prefix is read: appending bytes to a decodable buffer changes
      neither the result nor the frame's length. */
  lemma DecodeIsPrefix(d: Bytes, rest: Bytes)
    requires DecodeFrame(d).Ok?
    ensures DecodeFrame(d + rest) == DecodeFrame(d)
    ensures FrameLength(d + rest) == FrameLength(d)
  {
    Text.PrefixedExtend(d, 1, rest);
    Text.PrefixedExtend(d, HostAt(d), rest);
  }

  /** A buffer cut anywhere before the end of the frame its own length
      bytes announce fails with a read past the end. */
  lemma DecodeTruncated(d: Bytes, k: nat)
    requires DecodeFrame(d).Ok? && k < FrameLength(d)
    ensures DecodeFrame(d[..k]) == Err(ReadPastEnd)
  {
    if k >= 1 {
      Text.PrefixedCut(d, 1, k);
      var i := HostAt(d);
      if k >= i {
        Text.PrefixedCut(d, i, k);
      }
    }
  }

  /** The secret and then the host must be valid UTF-8; otherwise decoding
      fails with a decode error once their bytes have been read. */
  lemma DecodeInvalidUtf8(d: Bytes)
    requires |d| >= 2 && |d| >= 2 + d[1] as int
    ensures Utf8.Decode(d[2..2 + d[1] as int]).None? ==> DecodeFrame(d) == Err(InvalidUtf8)
    ensures Utf8.Decode(d[2..2 + d[1] as int]).Some? ==>
      var i := 2 + d[1] as int;
      |d| > i && |d| >= i + 1 + d[i] as int && Utf8.Decode(d[i + 1..i + 1 + d[i] as int]).None?
      ==> DecodeFrame(d) == Err(InvalidUtf8)
  {
  }

  /** Re-encoding the fields of a decoded frame reproduces the frame byte
      for byte (after its version byte, and entirely when that is 1); it
      fails exactly when the secret or the host bytes are not all ASCII. */
  lemma EchoExact(d: Bytes)
    requires DecodeFrame(d).Ok?
    ensures var h := DecodeFrame(d).value;
      var i := HostAt(d);
      i == 2 + d[1] as int && i < |d|
      && (EncodeFrame(h.password, h.host, h.port).Ok? <==>
          Utf8.AllAscii(d[2..i]) && Utf8.AllAscii(d[i + 1..FrameLength(d) - 2]))
      && (EncodeFrame(h.password, h.host, h.port).Ok? ==>
          EncodeFrame(h.password, h.host, h.port).value == [Version] + d[1..FrameLength(d)])
      && (EncodeFrame(h.password, h.host, h.port).Ok? && h.version == Version ==>
          EncodeFrame(h.password, h.host, h.port).value == d[..FrameLength(d)])
  {
    EchoExists(d);
    EchoBytes(d);
  }

  /** When the re-encoding exists: exactly when both text fields are ASCII. */
  lemma EchoExists(d: Bytes)
    requires DecodeFrame(d).Ok?
    ensures var h := DecodeFrame(d).value;
      var i := HostAt(d);
      i == 2 + d[1] as int && i < |d|
      && (EncodeFrame(h.password, h.host, h.port).Ok? <==>
          Utf8.AllAscii(d[2..i]) && Utf8.AllAscii(d[i + 1..FrameLength(d) - 2]))
  {
    var h := DecodeFrame(d).value;
    FrameLayout(d);
    FieldsEcho(d);
    EncodeLayout(h.password, h.host, h.port);
  }

  /** What the re-encoding is when it exists: the frame's own bytes. */
  lemma EchoBytes(d: Bytes)
    requires DecodeFrame(d).Ok?
    ensures var h := DecodeFrame(d).value;
      var e := EncodeFrame(h.password, h.host, h.port);
      (e.Ok? ==> e.value == [Version] + d[1..FrameLength(d)])
      && (e.Ok? && h.version == Version ==> e.value == d[..FrameLength(d)])
  {
    var h := DecodeFrame(d).value;
    var i := HostAt(d);
    var n := FrameLength(d) - 2;
    FrameLayout(d);
    FieldsEcho(d);
    EncodeLayout(h.password, h.host, h.port);
    var e := EncodeFrame(h.password, h.host, h.port);
    if e.Ok? {
      EchoAssemble(d, i, n, Text.PrefixedText(h.password).value, Text.PrefixedText(h.host).value, h.port, e.value);
    }
  }

  /** Fields written back as the bytes they were read from, followed by
      the port read from bytes n and n + 1, rebuild the frame. */
  lemma EchoAssemble(d: Bytes, i: nat, n: nat, secret: Bytes, dest: Bytes, port: int, e: Bytes)
    requires 1 <= i <= n && n + 2 <= |d|
    requires secret == d[1..i] && dest == d[i..n] && port == Uint16Value(d[n], d[n + 1])
    requires e == [Version] + secret + dest + Uint16Be(port)
    ensures e == [Version] + d[1..n + 2]
    ensures d[0] == Version ==> e == d[..n + 2]
  {
    Uint16Echo(d[n], d[n + 1]);
    assert d[1..n + 2] == d[1..i] + d[i..n] + [d[n], d[n + 1]];
    assert d[..n + 2] == [d[0]] + d[1..n + 2];
  }

  /** Each text field of a decoded frame is written back as the bytes it
      was read from, exactly when those bytes are ASCII. */
  lemma FieldsEcho(d: Bytes)
    requires DecodeFrame(d).Ok?
    ensures var h := DecodeFrame(d).value;
      var i := HostAt(d);
      var n := FrameLength(d) - 2;
      (Text.PrefixedText(h.password).Ok? <==> Utf8.AllAscii(d[2..i]))
      && (Text.PrefixedText(h.password).Ok? ==> Text.PrefixedText(h.password).value == d[1..i])
      && (Text.PrefixedText(h.host).Ok? <==> Utf8.AllAscii(d[i + 1..n]))
      && (Text.PrefixedText(h.host).Ok? ==> Text.PrefixedText(h.host).value == d[i..n])
  {
    FrameLayout(d);
    Text.PrefixedEcho(d, 1);
    Text.PrefixedEcho(d, HostAt(d));
  }

  /** The layout of a decoded frame: the secret field from byte 1, the host
      field from HostAt, then the port. */
  lemma FrameLayout(d: Bytes)
    requires DecodeFrame(d).Ok?
    ensures var i := HostAt(d);
      var n := FrameLength(d) - 2;
      i == 2 + d[1] as int && n == i + 1 + d[i] as int && n + 2 <= |d|
      && DecodeFrame(d).value == Handshake(d[0], Text.DecodePrefixedAt(d, 1).value.0,
                                           Text.DecodePrefixedAt(d, i).value.0, Uint16Value(d[n], d[n + 1]))
  {
  }

  /** Conversely, a buffer whose two text fields decode, followed by two
      more bytes, is a frame. */
  lemma FieldsDecode(d: Bytes, password: string, host: string, j: nat, n: nat)
    requires |d| >= 1
    requires Text.DecodePrefixedAt(d, 1) == Ok((password, j))
    requires Text.DecodePrefixedAt(d, j) == Ok((host, n))
    requires n + 2 <= |d|
    ensures DecodeFrame(d) == Ok(Handshake(d[0], password, host, Uint16Value(d[n], d[n + 1])))
    ensures FrameLength(d) == n + 2
  {
  }

  /** The layout of an encoded frame, and when it exists. */
  lemma EncodeLayout(password: string, host: string, port: int)
    ensures EncodeFrame(password, host, port).Ok? <==>
      Text.PrefixedText(password).Ok? && Text.PrefixedText(host).Ok? && 0 <= port < 0x1_0000
    ensures EncodeFrame(password, host, port).Ok? ==>
      EncodeFrame(password, host, port).value
      == [Version] + Text.PrefixedText(password).value + Text.PrefixedText(host).value + Uint16Be(port)
  {
  }
}
