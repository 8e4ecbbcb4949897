/**
 * The initiator's per-connection session: read the SOCKS5 greeting from
 * the local client and accept it with "no authentication"; read the
 * request; refuse commands other than CONNECT and address types other
 * than IPv4 and domain name; connect to the relay node; report the
 * outcome to the local client; send the injector frame and relay only if
 * the relay node echoes it exactly. A recv that raises ends the session
 * at that point, like a buffer that fails to decode.
 *
 * Session is what a session does, as a function of what the local client
 * sends, the configuration and which endpoints accept a connection; the
 * three Handle methods do it step by step on connection objects, an
 * exception being an early return.
 */
module Client {
  import opened Wire
  import Socks
  import Utf8
  import Injector
  import opened Net

  /** The values sockssl reads from its environment. */
  datatype ClientConfig = ClientConfig(password: string, relay: Endpoint)

  /** What a session does: how many buffers it reads from the local
      client, what it writes to it, which endpoints it dials, what it
      writes to the relay node, and whether it ends up relaying. */
  datatype Trace = Trace(localReads: nat, toLocal: Bytes, dialed: seq<Endpoint>, toRelay: Bytes, relaying: bool)

  /** What sendall writes for an encoder's result: nothing when the
      encoder raised. */
  function Sent(r: Result<Bytes>): Bytes
  {
    if r.Ok? then r.value else []
  }

  /** The relay node's answer is accepted only when it decodes to version 1
      and the very secret, host and port that were sent. */
  predicate EchoMatches(echo: Bytes, password: string, host: string, port: int)
  {
    Injector.DecodeFrame(echo) == Ok(Injector.Handshake(Injector.Version, password, host, port))
  }

  /** _handle_injector_handshake: the frame written to the relay node and
      whether relaying starts, given the outcome of the recv that reads the
      relay node's answer. */
  function InjectorStage(password: string, host: string, port: int, echo: Received): (Bytes, bool)
  {
    match Injector.EncodeFrame(password, host, port)
      case Err(_) => ([], false)
      case Ok(frame) => (frame, echo.Some? && EchoMatches(echo.value, password, host, port))
  }

  /** _handle_socks_request, from the recv of the request on. */
  function RequestStage(received: Received, cfg: ClientConfig, reachable: map<Endpoint, seq<Received>>): Trace
  {
    if received.None? then Trace(1, [], [], [], false)
    else match Socks.DecodeRequest(received.value)
      case Err(_) => Trace(1, [], [], [], false)
      case Ok(req) =>
        if req.ver != Socks.Version then Trace(1, [], [], [], false)
        else if req.cmd != Socks.CmdConnect then
          Trace(1, Sent(Socks.EncodeReply(Socks.RepCmdNotSupported as int, req.atyp as int, req.addr, req.port)), [], [], false)
        else if req.atyp != Socks.AtypIpv4 && req.atyp != Socks.AtypDomain then
          Trace(1, Sent(Socks.EncodeReply(Socks.RepAtypNotSupported as int, req.atyp as int, req.addr, req.port)), [], [], false)
        else if cfg.relay !in reachable then
          Trace(1, Sent(Socks.EncodeReply(Socks.RepConnectionRefused as int, req.atyp as int, req.addr, req.port)), [cfg.relay], [], false)
        else match Socks.EncodeReply(Socks.RepSucceeded as int, req.atyp as int, req.addr, req.port)
          case Err(_) => Trace(1, [], [cfg.relay], [], false)
          case Ok(reply) =>
            var (frame, relaying) := InjectorStage(cfg.password, req.addr.text, req.port, Next(reachable[cfg.relay]));
            Trace(1, reply, [cfg.relay], frame, relaying)
  }

  /** A whole session, given what recv yields on the local connection. */
  function Session(local: seq<Received>, cfg: ClientConfig, reachable: map<Endpoint, seq<Received>>): Trace
  {
    if Next(local).None? then Trace(1, [], [], [], false)
    else match Socks.DecodeGreeting(Next(local).value)
      case Err(_) => Trace(1, [], [], [], false)
      case Ok(g) =>
        if g.ver != Socks.Version || Socks.MethodNoAuth !in g.methods then Trace(1, [], [], [], false)
        else
          var t := RequestStage(Next(Drop(local, 1)), cfg, reachable);
          t.(localReads := 2, toLocal := [Socks.Version, Socks.MethodNoAuth] + t.toLocal)
  }

  // ---------------------------------------------------------------------
  // The handler

  method HandleInjectorHandshake(dst: Connection, password: string, host: string, port: int)
    returns (relaying: bool)
    modifies dst
    ensures var (frame, ok) := InjectorStage(password, host, port, Next(old(dst.incoming)));
      dst.output == old(dst.output) + frame
      && dst.incoming == Drop(old(dst.incoming), if frame == [] then 0 else 1)
      && relaying == ok
  {
    var frame := Injector.DoHandshake(password, host, port);
    if frame.Err? {
      return false;
    }
    Injector.EncodeFrameShape(password, host, port);
    dst.SendAll(frame.value);

    var echo := dst.Recv();
    if echo.None? {
      return false;
    }
    var data := Injector.GetHandshake(echo.value);
    if data.Err? {
      return false;
    }
    if data.value.version != Injector.Version {
      return false;
    }
    if data.value.password != password {
      return false;
    }
    if data.value.host != host {
      return false;
    }
    if data.value.port != port {
      return false;
    }
    return true;
  }

  method HandleSocksRequest(sock: Connection, net: Network, cfg: ClientConfig)
    returns (relay: Connection?, relaying: bool)
    modifies sock, net
    ensures var t := RequestStage(Next(old(sock.incoming)), cfg, net.reachable);
      sock.incoming == Drop(old(sock.incoming), 1)
      && sock.output == old(sock.output) + t.toLocal
      && net.dialed == old(net.dialed) + t.dialed
      && relaying == t.relaying
      && (relay != null <==> t.dialed != [] && cfg.relay in net.reachable)
      && (relay != null ==>
            fresh(relay) && relay.output == t.toRelay &&
            relay.incoming == Drop(net.reachable[cfg.relay], if t.toRelay == [] then 0 else 1))
  {
    var buffer := sock.Recv();
    if buffer.None? {
      return null, false;
    }
    var data := Socks.GetRequest(buffer.value);
    if data.Err? {
      return null, false;
    }
    var req := data.value;
    if req.ver != Socks.Version {
      return null, false;
    }
    if req.cmd != Socks.CmdConnect {
      var reply := Socks.ReplyRequest(Socks.RepCmdNotSupported as int, req.atyp as int, req.addr, req.port);
      if reply.Ok? {
        sock.SendAll(reply.value);
      }
      return null, false;
    }
    if req.atyp != Socks.AtypIpv4 && req.atyp != Socks.AtypDomain {
      var reply := Socks.ReplyRequest(Socks.RepAtypNotSupported as int, req.atyp as int, req.addr, req.port);
      if reply.Ok? {
        sock.SendAll(reply.value);
      }
      return null, false;
    }

    relay := net.Connect(cfg.relay);
    if relay == null {
      var reply := Socks.ReplyRequest(Socks.RepConnectionRefused as int, req.atyp as int, req.addr, req.port);
      if reply.Ok? {
        sock.SendAll(reply.value);
      }
      return null, false;
    }

    var reply := Socks.ReplyRequest(Socks.RepSucceeded as int, req.atyp as int, req.addr, req.port);
    if reply.Err? {
      return relay, false;
    }
    sock.SendAll(reply.value);
    relaying := HandleInjectorHandshake(relay, cfg.password, req.addr.text, req.port);
  }

  method HandleSocksHandshake(sock: Connection, net: Network, cfg: ClientConfig)
    returns (relay: Connection?, relaying: bool)
    modifies sock, net
    ensures var t := Session(old(sock.incoming), cfg, net.reachable);
      sock.incoming == Drop(old(sock.incoming), t.localReads)
      && sock.output == old(sock.output) + t.toLocal
      && net.dialed == old(net.dialed) + t.dialed
      && relaying == t.relaying
      && (relay != null <==> t.dialed != [] && cfg.relay in net.reachable)
      && (relay != null ==>
            fresh(relay) && relay.output == t.toRelay &&
            relay.incoming == Drop(net.reachable[cfg.relay], if t.toRelay == [] then 0 else 1))
  {
    var buffer := sock.Recv();
    if buffer.None? {
      return null, false;
    }
    var data := Socks.GetHandshake(buffer.value);
    if data.Err? {
      return null, false;
    }
    if data.value.ver != Socks.Version {
      return null, false;
    }
    if Socks.MethodNoAuth !in data.value.methods {
      return null, false;
    }
    var reply := Socks.ReplyHandshake(Socks.MethodNoAuth as int);
    sock.SendAll(reply.value);
    relay, relaying := HandleSocksRequest(sock, net, cfg);
    assert sock.output == old(sock.output) + [Socks.Version, Socks.MethodNoAuth]
      + RequestStage(Next(Drop(old(sock.incoming), 1)), cfg, net.reachable).toLocal;
  }

  // ---------------------------------------------------------------------
  // Properties of a session

  /** A recv of the greeting that raises, and a greeting that does not
      decode, is not version 5 or does not offer "no authentication", end
      the session: nothing is written back and nothing is dialled. */
  lemma BadGreetingAbortsSilently(local: seq<Received>, cfg: ClientConfig, reachable: map<Endpoint, seq<Received>>)
    requires Next(local).None? ||
      var g := Socks.DecodeGreeting(Next(local).value);
      g.Err? || g.value.ver != Socks.Version || Socks.MethodNoAuth !in g.value.methods
    ensures Session(local, cfg, reachable) == Trace(1, [], [], [], false)
  {
  }

  /** An acceptable greeting is answered with exactly VER 5 and method 0,
      before the request, the second buffer, is read. */
  lemma GreetingAcceptedRepliesNoAuth(local: seq<Received>, cfg: ClientConfig, reachable: map<Endpoint, seq<Received>>)
    requires Next(local).Some?
    requires var g := Socks.DecodeGreeting(Next(local).value);
      g.Ok? && g.value.ver == Socks.Version && Socks.MethodNoAuth in g.value.methods
    ensures var t := Session(local, cfg, reachable);
      var u := RequestStage(Next(Drop(local, 1)), cfg, reachable);
      t.localReads == 2 && t.toLocal[..2] == [0x05, 0x00]
      && t == u.(localReads := 2, toLocal := [0x05, 0x00] + u.toLocal)
  {
  }

  /** A recv of the request that raises, and a request that does not
      decode or is not version 5, end the session with nothing written
      back and nothing dialled. */
  lemma BadRequestAbortsSilently(request: Received, cfg: ClientConfig, reachable: map<Endpoint, seq<Received>>)
    requires request.None? ||
      var r := Socks.DecodeRequest(request.value); r.Err? || r.value.ver != Socks.Version
    ensures RequestStage(request, cfg, reachable) == Trace(1, [], [], [], false)
  {
  }

  /** A command other than CONNECT is answered with reply 7 echoing the
      request's address and port (unless that reply cannot be encoded), and
      no connection is attempted. The command is checked before the address
      type. */
  lemma UnsupportedCommandRejected(request: Bytes, cfg: ClientConfig, reachable: map<Endpoint, seq<Received>>)
    requires Socks.DecodeRequest(request).Ok?
    requires var req := Socks.DecodeRequest(request).value;
      req.ver == Socks.Version && req.cmd != Socks.CmdConnect
    ensures var req := Socks.DecodeRequest(request).value;
      var t := RequestStage(Some(request), cfg, reachable);
      t.dialed == [] && t.toRelay == [] && !t.relaying
      && (t.toLocal != [] <==> (req.atyp == Socks.AtypDomain ==> Utf8.AllAscii(Socks.DomainBytes(request[4..]))))
      && (t.toLocal != [] ==>
            t.toLocal == [0x05, 0x07, 0x00, req.atyp] + request[4..Socks.RequestLength(request)])
  {
    Socks.RequestEcho(request, Socks.RepCmdNotSupported);
  }

  /** A CONNECT to an IPv6 address is answered with reply 8 echoing the
      request's address and port, and no connection is attempted. */
  lemma UnsupportedAtypRejected(request: Bytes, cfg: ClientConfig, reachable: map<Endpoint, seq<Received>>)
    requires Socks.DecodeRequest(request).Ok?
    requires var req := Socks.DecodeRequest(request).value;
      req.ver == Socks.Version && req.cmd == Socks.CmdConnect
      && req.atyp != Socks.AtypIpv4 && req.atyp != Socks.AtypDomain
    ensures var t := RequestStage(Some(request), cfg, reachable);
      t.dialed == [] && t.toRelay == [] && !t.relaying
      && t.toLocal == [0x05, 0x08, 0x00, 0x04] + request[4..Socks.RequestLength(request)]
  {
    Socks.RequestEcho(request, Socks.RepAtypNotSupported);
  }

  /** When the relay node cannot be reached, the only connection attempted
      is to it, and the answer is reply 5 echoing the request. */
  lemma RelayDownRefused(request: Bytes, cfg: ClientConfig, reachable: map<Endpoint, seq<Received>>)
    requires Socks.DecodeRequest(request).Ok?
    requires var req := Socks.DecodeRequest(request).value;
      req.ver == Socks.Version && req.cmd == Socks.CmdConnect
      && (req.atyp == Socks.AtypIpv4 || req.atyp == Socks.AtypDomain)
    requires cfg.relay !in reachable
    ensures var req := Socks.DecodeRequest(request).value;
      var t := RequestStage(Some(request), cfg, reachable);
      t.dialed == [cfg.relay] && t.toRelay == [] && !t.relaying
      && (t.toLocal != [] <==> (req.atyp == Socks.AtypDomain ==> Utf8.AllAscii(Socks.DomainBytes(request[4..]))))
      && (t.toLocal != [] ==>
            t.toLocal == [0x05, 0x05, 0x00, req.atyp] + request[4..Socks.RequestLength(request)])
  {
    Socks.RequestEcho(request, Socks.RepConnectionRefused);
  }

  /** Once the relay node is connected, reply 0 echoing the request is
      written to the local client, and only then is the injector frame,
      built from the configured secret and the request's host and port,
      written to the relay node. */
  lemma ConnectedRepliesSucceeded(request: Bytes, cfg: ClientConfig, reachable: map<Endpoint, seq<Received>>)
    requires Socks.DecodeRequest(request).Ok?
    requires var req := Socks.DecodeRequest(request).value;
      req.ver == Socks.Version && req.cmd == Socks.CmdConnect
      && (req.atyp == Socks.AtypIpv4 || req.atyp == Socks.AtypDomain)
    requires cfg.relay in reachable
    ensures var req := Socks.DecodeRequest(request).value;
      var t := RequestStage(Some(request), cfg, reachable);
      t.dialed == [cfg.relay]
      && (t.toLocal != [] <==> (req.atyp == Socks.AtypDomain ==> Utf8.AllAscii(Socks.DomainBytes(request[4..]))))
      && (t.toLocal != [] ==>
            t.toLocal == [0x05, 0x00, 0x00, req.atyp] + request[4..Socks.RequestLength(request)]
            && t.toRelay == Sent(Injector.EncodeFrame(cfg.password, req.addr.text, req.port)))
      && (t.toLocal == [] ==> t.toRelay == [] && !t.relaying)
  {
    Socks.RequestEcho(request, Socks.RepSucceeded);
  }

  /** The frame written to the relay node carries the configured secret and
      the request's host and port, and decodes back to exactly those. */
  lemma FrameCarriesRequest(request: Bytes, cfg: ClientConfig, reachable: map<Endpoint, seq<Received>>)
    requires RequestStage(Some(request), cfg, reachable).toRelay != []
    ensures Socks.DecodeRequest(request).Ok? && Socks.DecodeRequest(request).value.addr.Name?
    ensures var req := Socks.DecodeRequest(request).value;
      var t := RequestStage(Some(request), cfg, reachable);
      Injector.EncodeFrame(cfg.password, req.addr.text, req.port) == Ok(t.toRelay)
      && Injector.DecodeFrame(t.toRelay)
         == Ok(Injector.Handshake(Injector.Version, cfg.password, req.addr.text, req.port))
  {
    var req := Socks.DecodeRequest(request).value;
    var t := RequestStage(Some(request), cfg, reachable);
    Injector.FrameRoundTrip(cfg.password, req.addr.text, req.port, []);
    assert t.toRelay + [] == t.toRelay;
  }

  /** Relaying starts only when the recv on the relay connection returns a
      buffer that begins with exactly the frame that was sent. */
  lemma RelayingRequiresExactEcho(request: Bytes, cfg: ClientConfig, reachable: map<Endpoint, seq<Received>>)
    requires RequestStage(Some(request), cfg, reachable).relaying
    ensures cfg.relay in reachable
    ensures Next(reachable[cfg.relay]).Some?
    ensures var echo := Next(reachable[cfg.relay]).value;
      var t := RequestStage(Some(request), cfg, reachable);
      Injector.DecodeFrame(echo).Ok? && t.toRelay != []
      && echo[..Injector.FrameLength(echo)] == t.toRelay
  {
    var req := Socks.DecodeRequest(request).value;
    var echo := Next(reachable[cfg.relay]).value;
    Injector.EchoExact(echo);
  }

  /** Conversely, an answer that begins with the frame that was sent is
      accepted, whatever follows it. */
  lemma ExactEchoAccepted(request: Bytes, cfg: ClientConfig, reachable: map<Endpoint, seq<Received>>, rest: Bytes)
    requires RequestStage(Some(request), cfg, reachable).toRelay != []
    requires cfg.relay in reachable
    requires Next(reachable[cfg.relay]) == Some(RequestStage(Some(request), cfg, reachable).toRelay + rest)
    ensures RequestStage(Some(request), cfg, reachable).relaying
  {
    var req := Socks.DecodeRequest(request).value;
    Injector.FrameRoundTrip(cfg.password, req.addr.text, req.port, rest);
  }

  /** Relaying implies that CONNECT was requested for an IPv4 address or a
      domain name, that the relay node is the only endpoint dialled, and
      that the local client was sent reply 0 echoing its request. */
  lemma RelayingImpliesSucceededReply(local: seq<Received>, cfg: ClientConfig, reachable: map<Endpoint, seq<Received>>)
    requires Session(local, cfg, reachable).relaying
    ensures Next(Drop(local, 1)).Some?
    ensures var request := Next(Drop(local, 1)).value;
      Socks.DecodeRequest(request).Ok?
      && var req := Socks.DecodeRequest(request).value;
      req.cmd == Socks.CmdConnect && (req.atyp == Socks.AtypIpv4 || req.atyp == Socks.AtypDomain)
      && Session(local, cfg, reachable).dialed == [cfg.relay]
      && Session(local, cfg, reachable).toLocal
         == [0x05, 0x00] + [0x05, 0x00, 0x00, req.atyp] + request[4..Socks.RequestLength(request)]
  {
    var request := Next(Drop(local, 1)).value;
    Socks.RequestEcho(request, Socks.RepSucceeded);
  }
}
