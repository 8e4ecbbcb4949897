/**
 * The SOCKS5 subset of RFC 1928 the initiator speaks to local clients:
 * the greeting and method selection (section 3), the request (section 4),
 * the address field (section 5) and the reply (section 6).
 *
 * Each operation is a specification function on bytes plus the method
 * that builds or consumes the message step by step as the Python implementation does
 * (successive pack appends, successive reads from a cursor).
 */
module Socks {
  import opened Wire
  import Utf8
  import Text
  import Ipv4

  const Version: byte := 0x05

  // METHOD
  const MethodNoAuth: byte := 0x00
  const MethodGssapi: byte := 0x01
  const MethodUserPass: byte := 0x02
  const MethodNoAcceptable: byte := 0xFF

  // CMD (sockssl numbers UDP ASSOCIATE 0x04; no decision depends on it)
  const CmdConnect: byte := 0x01
  const CmdBind: byte := 0x02
  const CmdUdp: byte := 0x04

  // ATYP
  const AtypIpv4: byte := 0x01
  const AtypDomain: byte := 0x03
  const AtypIpv6: byte := 0x04

  // REPLY
  const RepSucceeded: byte := 0x00
  const RepServerFailure: byte := 0x01
  const RepNotAllowed: byte := 0x02
  const RepNetworkUnreachable: byte := 0x03
  const RepHostUnreachable: byte := 0x04
  const RepConnectionRefused: byte := 0x05
  const RepTtlExpired: byte := 0x06
  const RepCmdNotSupported: byte := 0x07
  const RepAtypNotSupported: byte := 0x08

  datatype Greeting = Greeting(ver: byte, methods: seq<byte>)

  /** A destination as sockssl holds it: the text of an IPv4 address
      or of a domain name, or an IPv6 address kept as its 16 raw bytes. */
  datatype Host = Name(text: string) | Ipv6(raw: Bytes)

  datatype Request = Request(ver: byte, cmd: byte, atyp: byte, addr: Host, port: int)

  // ---------------------------------------------------------------------
  // Greeting and method selection

  /** The greeting as a client lays it out: VER, NMETHODS, METHODS. */
  function GreetingBytes(g: Greeting): Bytes
    requires |g.methods| < 256
  {
    [g.ver, |g.methods|] + g.methods
  }

  /** get_handshake: VER, then as many methods as the second byte says. */
  function DecodeGreeting(data: Bytes): Result<Greeting>
  {
    if |data| < 2 || |data| < 2 + data[1] as int then Err(ReadPastEnd)
    else Ok(Greeting(data[0], data[2..2 + data[1] as int]))
  }

  method GetHandshake(data: Bytes) returns (r: Result<Greeting>)
    ensures r == DecodeGreeting(data)
  {
    var reader := new Reader(data);
    var ver :- reader.ReadUint8();
    var count :- reader.ReadUint8();
    var methods: seq<byte> := [];
    var i: int := 0;
    while i < count
      invariant reader.Valid() && reader.data == data
      invariant 0 <= i <= count
      invariant reader.pos == 2 + i
      invariant methods == data[2..2 + i]
    {
      var m :- reader.ReadUint8();
      methods := methods + [m];
      i := i + 1;
    }
    return Ok(Greeting(ver, methods));
  }

  /** reply_handshake: exactly VER and the chosen method. */
  method ReplyHandshake(choice: int) returns (r: Result<Bytes>)
    ensures 0 <= choice < 256 ==> r == Ok([Version, choice])
    ensures !(0 <= choice < 256) ==> r.Err?
  {
    var data: Bytes := [];
    data := data + PackUint8(Version).value;
    var chunk :- PackUint8(choice);
    data := data + chunk;
    assert data == [Version, choice];
    return Ok(data);
  }

  /** The decoder reads exactly a greeting laid out by a client, and ignores
      whatever follows it. */
  lemma GreetingRoundTrip(g: Greeting, rest: Bytes)
    requires |g.methods| < 256
    ensures DecodeGreeting(GreetingBytes(g) + rest) == Ok(g)
  {
    var d := GreetingBytes(g) + rest;
    assert d[2..2 + |g.methods|] == g.methods;
  }

  /** Conversely, whatever decodes starts with the layout of what it decodes to. */
  lemma GreetingIsPrefix(data: Bytes)
    requires DecodeGreeting(data).Ok?
    ensures var g := DecodeGreeting(data).value;
      |g.methods| < 256 && GreetingBytes(g) <= data
  {
    var g := DecodeGreeting(data).value;
    assert GreetingBytes(g) == data[..2 + data[1] as int];
  }

  // ---------------------------------------------------------------------
  // Address field

  /** The address part of a request: the host and how many bytes it took. */
  function DecodeAddress(atyp: byte, d: Bytes): (r: Result<(Host, nat)>)
    ensures r.Ok? ==> r.value.1 <= |d|
    ensures r.Ok? && (atyp == AtypIpv4 || atyp == AtypDomain) ==> r.value.0.Name?
  {
    if atyp == AtypIpv4 then
      if |d| < 4 then Err(ReadPastEnd) else Ok((Name(Ipv4.Format(d[..4])), 4))
    else if atyp == AtypDomain then
      match Text.DecodePrefixedAt(d, 0)
        case Err(e) => Err(e)
        case Ok((text, n)) => Ok((Name(text), n))
    else if atyp == AtypIpv6 then
      if |d| < 16 then Err(ReadPastEnd) else Ok((Ipv6(d[..16]), 16))
    else
      Err(UnknownAtyp(atyp))
  }

  /** The address part of a reply. A domain name is prefixed with its length
      in characters and must then encode to that many bytes, so only ASCII
      names encode. An IPv6 host can only be written as ATYP 4 and a
      textual host only as ATYP 1 or 3. */
  function AddressField(atyp: int, addr: Host): Result<Bytes>
  {
    if atyp == AtypIpv4 as int then
      if addr.Name? && Ipv4.Parse(addr.text).Some? then Ok(Ipv4.Parse(addr.text).value)
      else Err(IllegalAddress)
    else if atyp == AtypDomain as int then
      if !addr.Name? then Err(IllegalAddress)
      else Text.PrefixedText(addr.text)
    else if atyp == AtypIpv6 as int then
      if !addr.Ipv6? then Err(IllegalAddress)
      else if |addr.raw| != 16 then Err(LengthMismatch)
      else Ok(addr.raw)
    else
      Err(UnknownAtyp(atyp))
  }

  /** An encoded address field decodes to the same host, whatever follows. */
  lemma AddressRoundTrip(atyp: byte, addr: Host, rest: Bytes)
    requires AddressField(atyp, addr).Ok?
    ensures var f := AddressField(atyp, addr).value;
      DecodeAddress(atyp, f + rest) == Ok((addr, |f|))
  {
    var f := AddressField(atyp, addr).value;
    var d := f + rest;
    if atyp == AtypIpv4 {
      Ipv4.FormatParse(addr.text);
      assert d[..4] == f;
    } else if atyp == AtypDomain {
      Text.PrefixedRoundTrip(addr.text, [], rest);
      assert [] + f + rest == d;
    } else {
      assert d[..16] == f;
    }
  }

  /** A decoded domain name's bytes. */
  function DomainBytes(d: Bytes): Bytes
    requires |d| >= 1 && |d| >= 1 + d[0] as int
  {
    d[1..1 + d[0] as int]
  }

  /** Writing back a decoded host reproduces the bytes it was read from; it
      fails only for a domain name that is not ASCII. */
  lemma AddressEcho(atyp: byte, d: Bytes)
    requires DecodeAddress(atyp, d).Ok?
    ensures var (addr, n) := DecodeAddress(atyp, d).value;
      var f := AddressField(atyp, addr);
      (f.Ok? <==> (atyp == AtypDomain ==> Utf8.AllAscii(DomainBytes(d))))
      && (f.Ok? ==> f.value == d[..n])
  {
    var (addr, n) := DecodeAddress(atyp, d).value;
    if atyp == AtypIpv4 {
      Ipv4.ParseFormat(d[..4]);
    } else if atyp == AtypDomain {
      Text.PrefixedEcho(d, 0);
    }
  }

  // ---------------------------------------------------------------------
  // Request

  /** get_request: VER, CMD, one ignored RSV byte, ATYP, the address, and
      a big-endian port. */
  function DecodeRequest(d: Bytes): (r: Result<Request>)
    ensures r.Ok? && (r.value.atyp == AtypIpv4 || r.value.atyp == AtypDomain) ==> r.value.addr.Name?
  {
    if |d| < 4 then Err(ReadPastEnd)
    else match DecodeAddress(d[3], d[4..])
      case Err(e) => Err(e)
      case Ok((addr, n)) =>
        if |d| < 4 + n + 2 then Err(ReadPastEnd)
        else Ok(Request(d[0], d[1], d[3], addr, Uint16Value(d[4 + n], d[5 + n])))
  }

  /** How many bytes a decodable request occupies. */
  function RequestLength(d: Bytes): (n: nat)
    requires DecodeRequest(d).Ok?
    ensures n <= |d|
  {
    4 + DecodeAddress(d[3], d[4..]).value.1 + 2
  }

  method GetRequest(data: Bytes) returns (r: Result<Request>)
    ensures r == DecodeRequest(data)
  {
    var reader := new Reader(data);
    var ver :- reader.ReadUint8();
    var cmd :- reader.ReadUint8();
    var rsv :- reader.ReadUint8();
    var atyp :- reader.ReadUint8();
    assert reader.pos == 4;
    var addr: Host;
    ghost var d := data[4..];
    if atyp == AtypIpv4 {
      var raw :- reader.ReadBytes(4);
      assert raw == d[..4];
      addr := Name(Ipv4.Format(raw));
    } else if atyp == AtypDomain {
      Text.PrefixedShift(data, 4);
      var text :- Text.ReadText(reader);
      addr := Name(text);
    } else if atyp == AtypIpv6 {
      var raw :- reader.ReadBytes(16);
      assert raw == d[..16];
      addr := Ipv6(raw);
    } else {
      return Err(UnknownAtyp(atyp));
    }
    assert DecodeAddress(atyp, data[4..]) == Ok((addr, reader.pos - 4));
    var port :- reader.ReadUint16();
    return Ok(Request(ver, cmd, atyp, addr, port));
  }

  /** Any address type other than 1, 3 or 4 is rejected as soon as it is read. */
  lemma UnknownAtypRejected(d: Bytes)
    requires |d| >= 4 && d[3] != AtypIpv4 && d[3] != AtypDomain && d[3] != AtypIpv6
    ensures DecodeRequest(d) == Err(UnknownAtyp(d[3]))
  {
  }

  // ---------------------------------------------------------------------
  // Reply

  /** reply_request: VER, REP, RSV = 0, ATYP, the address field, the port. */
  function EncodeReply(rep: int, atyp: int, addr: Host, port: int): Result<Bytes>
  {
    if !(0 <= rep < 256) || !(0 <= atyp < 256) then Err(OutOfRange)
    else match AddressField(atyp, addr)
      case Err(e) => Err(e)
      case Ok(field) =>
        if !(0 <= port < 0x1_0000) then Err(OutOfRange)
        else Ok([Version, rep, 0, atyp] + field + Uint16Be(port))
  }

  method ReplyRequest(rep: int, atyp: int, addr: Host, port: int) returns (r: Result<Bytes>)
    ensures r == EncodeReply(rep, atyp, addr, port)
  {
    var data: Bytes := [];
    data := data + PackUint8(Version).value;
    var chunk :- PackUint8(rep);
    data := data + chunk;
    data := data + PackUint8(0).value;
    chunk :- PackUint8(atyp);
    data := data + chunk;
    ghost var header := data;
    assert header == [Version, rep, 0, atyp];
    if atyp == AtypIpv4 as int {
      var raw := if addr.Name? then Ipv4.Parse(addr.text) else None;
      if raw.None? {
        return Err(IllegalAddress);
      }
      data := data + PackBytes(4, raw.value).value;
    } else if atyp == AtypDomain as int {
      if !addr.Name? {
        return Err(IllegalAddress);
      }
      var length := |addr.text|;
      chunk :- PackUint8(length);
      data := data + chunk;
      var encoded := Utf8.Encode(addr.text);
      Utf8.EncodeLength(addr.text);
      chunk :- PackBytes(length, encoded);
      data := data + chunk;
      Text.PrefixedTextShape(addr.text);
      assert data == header + Text.PrefixedText(addr.text).value;
    } else if atyp == AtypIpv6 as int {
      if !addr.Ipv6? {
        return Err(IllegalAddress);
      }
      chunk :- PackBytes(16, addr.raw);
      data := data + chunk;
    } else {
      return Err(UnknownAtyp(atyp));
    }
    assert data == header + AddressField(atyp, addr).value;
    chunk :- PackUint16(port);
    data := data + chunk;
    return Ok(data);
  }

  /** reply_request raises for an unknown address type, a domain name over
      255 characters or that is not ASCII, and a port outside 16 bits. */
  lemma ReplyFailures(rep: int, atyp: int, addr: Host, port: int)
    ensures atyp != AtypIpv4 as int && atyp != AtypDomain as int && atyp != AtypIpv6 as int
      ==> EncodeReply(rep, atyp, addr, port).Err?
    ensures atyp == AtypDomain as int && addr.Name? && |addr.text| > 255
      ==> EncodeReply(rep, atyp, addr, port).Err?
    ensures atyp == AtypDomain as int && addr.Name? && |Utf8.Encode(addr.text)| != |addr.text|
      ==> EncodeReply(rep, atyp, addr, port).Err?
    ensures !(0 <= port < 0x1_0000) ==> EncodeReply(rep, atyp, addr, port).Err?
  {
    if addr.Name? {
      Text.PrefixedTextShape(addr.text);
    }
  }

  /** Round trip: a reply decodes, with the request decoder, to VER 5, the
      reply code in the CMD position, and the same address type, host and
      port; bytes after it are ignored. */
  /** The layout of a reply, and the conditions under which it exists. */
  lemma ReplyLayout(rep: int, atyp: int, addr: Host, port: int)
    ensures EncodeReply(rep, atyp, addr, port).Ok? <==>
      0 <= rep < 256 && 0 <= atyp < 256 && AddressField(atyp, addr).Ok? && 0 <= port < 0x1_0000
    ensures EncodeReply(rep, atyp, addr, port).Ok? ==>
      EncodeReply(rep, atyp, addr, port).value
      == [Version, rep, 0, atyp] + AddressField(atyp, addr).value + Uint16Be(port)
  {
  }

  /** The layout of a decoded request: header, address field of n bytes,
      then the port. */
  lemma RequestLayout(d: Bytes)
    requires DecodeRequest(d).Ok?
    ensures var (addr, n) := DecodeAddress(d[3], d[4..]).value;
      RequestLength(d) == 6 + n
      && DecodeRequest(d).value == Request(d[0], d[1], d[3], addr, Uint16Value(d[4 + n], d[5 + n]))
  {
  }

  lemma ReplyRoundTrip(rep: int, atyp: int, addr: Host, port: int, rest: Bytes)
    requires EncodeReply(rep, atyp, addr, port).Ok?
    ensures DecodeRequest(EncodeReply(rep, atyp, addr, port).value + rest)
      == Ok(Request(Version, rep, atyp, addr, port))
  {
    ReplyLayout(rep, atyp, addr, port);
    var field := AddressField(atyp, addr).value;
    var be := Uint16Be(port);
    var d := EncodeReply(rep, atyp, addr, port).value + rest;
    assert d == [Version, rep, 0, atyp] + (field + (be + rest));
    assert d[3] == atyp && d[4..] == field + (be + rest);
    AddressRoundTrip(atyp, addr, be + rest);
    assert d[4 + |field|] == be[0] && d[5 + |field|] == be[1];
    Uint16RoundTrip(port);
  }

  /** The domain-name instance of the round trip, for an ASCII name of at
      most 255 characters. */
  lemma DomainReplyRoundTrip(rep: byte, name: string, port: int)
    requires Utf8.IsAscii(name) && |name| <= 255 && 0 <= port < 0x1_0000
    ensures EncodeReply(rep, AtypDomain as int, Name(name), port).Ok?
    ensures DecodeRequest(EncodeReply(rep, AtypDomain as int, Name(name), port).value)
      == Ok(Request(Version, rep, AtypDomain, Name(name), port))
  {
    Text.PrefixedTextShape(name);
    ReplyRoundTrip(rep, AtypDomain as int, Name(name), port, []);
    assert EncodeReply(rep, AtypDomain as int, Name(name), port).value + []
      == EncodeReply(rep, AtypDomain as int, Name(name), port).value;
  }

  /** Echo: a reply built from a decoded request carries, after its 4-byte
      header, exactly the address and port bytes of that request. It can
      only fail for a domain name that is not ASCII. */
  lemma RequestEcho(d: Bytes, rep: byte)
    requires DecodeRequest(d).Ok?
    ensures var req := DecodeRequest(d).value;
      var r := EncodeReply(rep, req.atyp, req.addr, req.port);
      (r.Ok? <==> (req.atyp == AtypDomain ==> Utf8.AllAscii(DomainBytes(d[4..]))))
      && (r.Ok? ==> r.value == [Version, rep, 0, req.atyp] + d[4..RequestLength(d)])
  {
    var req := DecodeRequest(d).value;
    var (addr, n) := DecodeAddress(d[3], d[4..]).value;
    RequestLayout(d);
    AddressEcho(d[3], d[4..]);
    ReplyLayout(rep, req.atyp, req.addr, req.port);
    var r := EncodeReply(rep, req.atyp, req.addr, req.port);
    if r.Ok? {
      ReplyAssemble(d, n, AddressField(req.atyp, req.addr).value, req.port, [Version, rep, 0, req.atyp], r.value);
    }
  }

  /** A header, the address field as it was read and the port read from the
      two bytes after it rebuild the request bytes from byte 4 on. */
  lemma ReplyAssemble(d: Bytes, n: nat, field: Bytes, port: int, header: Bytes, r: Bytes)
    requires 6 + n <= |d|
    requires field == d[4..][..n] && port == Uint16Value(d[4 + n], d[5 + n])
    requires r == header + field + Uint16Be(port)
    ensures r == header + d[4..6 + n]
  {
    Uint16Echo(d[4 + n], d[5 + n]);
    assert d[4..6 + n] == d[4..][..n] + [d[4 + n], d[5 + n]];
  }
}
