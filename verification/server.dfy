/**
 * The relay node's per-connection session: one recv (if it raises, the
 * session ends there), then either the
 * authenticated path (the buffer is an injector frame of version 1 with
 * the configured secret: connect to the destination it names and echo
 * the frame back) or, when anything on that path raises, the disguise
 * path (connect to the configured decoy and forward the received bytes
 * unchanged), then relay.
 */
module Server {
  import opened Wire
  import Utf8
  import Injector
  import opened Net

  /** The values sockssl reads from its environment. */
  datatype ServerConfig = ServerConfig(password: string, decoy: Endpoint)

  /** What a session does: the endpoints it dials, what it writes back to
      the connecting peer, the endpoint it ends up relaying with (if any)
      and what it writes to that endpoint before relaying. */
  datatype Trace = Trace(dialed: seq<Endpoint>, toClient: Bytes, relayTo: Option<Endpoint>, forwarded: Bytes)

  /** The handshake a buffer carries when it passes both checks of the
      try block: it decodes, its version is 1 and its secret is ours. */
  function Authenticated(data: Bytes, password: string): (r: Option<Injector.Handshake>)
    ensures r.Some? ==>
      Injector.DecodeFrame(data) == Ok(r.value) && r.value.version == Injector.Version && r.value.password == password
  {
    match Injector.DecodeFrame(data)
      case Err(_) => None
      case Ok(h) =>
        if h.version != Injector.Version then None
        else if h.password != password then None
        else Some(h)
  }

  /** The except branch: connect to the decoy and, if that succeeds,
      forward the received buffer to it; endpoints already dialled inside
      the try block come first. */
  function Disguise(before: seq<Endpoint>, data: Bytes, cfg: ServerConfig, reachable: map<Endpoint, seq<Received>>): Trace
  {
    if cfg.decoy in reachable then Trace(before + [cfg.decoy], [], Some(cfg.decoy), data)
    else Trace(before + [cfg.decoy], [], None, [])
  }

  /** _handle_injector_handshake, given the outcome of its one recv. The
      recv comes before the try block, so a recv that raises ends the
      session with nothing dialled and nothing sent. */
  function Session(received: Received, cfg: ServerConfig, reachable: map<Endpoint, seq<Received>>): Trace
  {
    match received
      case None => Trace([], [], None, [])
      case Some(data) =>
        match Authenticated(data, cfg.password)
          case None => Disguise([], data, cfg, reachable)
          case Some(h) =>
            var dst := Endpoint(h.host, h.port);
            if dst !in reachable then Disguise([dst], data, cfg, reachable)
            else match Injector.EncodeFrame(h.password, h.host, h.port)
              case Err(_) => Disguise([dst], data, cfg, reachable)
              case Ok(echo) => Trace([dst], echo, Some(dst), [])
  }

  // ---------------------------------------------------------------------
  // The handler

  /** Returns the connection the session goes on to relay with, or null
      when the session ends (the decoy could not be reached). */
  method HandleInjectorHandshake(sock: Connection, net: Network, cfg: ServerConfig)
    returns (dst: Connection?)
    modifies sock, net
    ensures var t := Session(Next(old(sock.incoming)), cfg, net.reachable);
      sock.incoming == Drop(old(sock.incoming), 1)
      && sock.output == old(sock.output) + t.toClient
      && net.dialed == old(net.dialed) + t.dialed
      && (dst != null <==> t.relayTo.Some?)
      && (dst != null ==>
            fresh(dst) && dst.output == t.forwarded
            && dst.incoming == net.reachable[t.relayTo.value])
  {
    var received := sock.Recv();
    if received.None? {
      return null;
    }
    var data := received.value;

    // try:
    var failed := false;
    var hs := Injector.GetHandshake(data);
    if hs.Err? || hs.value.version != Injector.Version || hs.value.password != cfg.password {
      failed := true;
    } else {
      var h := hs.value;
      dst := net.Connect(Endpoint(h.host, h.port));
      if dst == null {
        failed := true;
      } else {
        var echo := Injector.DoHandshake(h.password, h.host, h.port);
        if echo.Err? {
          failed := true;
        } else {
          sock.SendAll(echo.value);
        }
      }
    }

    // except:
    if failed {
      dst := net.Connect(cfg.decoy);
      if dst == null {
        return null;
      }
      dst.SendAll(data);
    }
  }

  // ---------------------------------------------------------------------
  // Properties of a session

  /** Nothing is dialled exactly when the recv raised; then nothing is
      written back and nothing is relayed. Every buffer, even the empty
      one of a peer that closed at once, leads to at least one connect. */
  lemma RecvFailureEndsSilently(received: Received, cfg: ServerConfig, reachable: map<Endpoint, seq<Received>>)
    ensures var t := Session(received, cfg, reachable);
      (t.dialed == [] <==> received.None?)
      && (received.None? ==> t.toClient == [] && t.relayTo == None && t.forwarded == [])
  {
  }

  /** Which endpoint is dialled first: the destination a buffer names when
      it decodes as a frame of version 1 carrying the configured secret,
      and otherwise the decoy, which is then the only endpoint dialled. */
  lemma AuthenticationRule(data: Bytes, cfg: ServerConfig, reachable: map<Endpoint, seq<Received>>)
    ensures var t := Session(Some(data), cfg, reachable);
      var d := Injector.DecodeFrame(data);
      (d.Ok? && d.value.version == Injector.Version && d.value.password == cfg.password
       ==> |t.dialed| >= 1 && t.dialed[0] == Endpoint(d.value.host, d.value.port))
      && (!(d.Ok? && d.value.version == Injector.Version && d.value.password == cfg.password)
       ==> t.dialed == [cfg.decoy])
  {
  }

  /** The choice rule: the session relays with the destination a frame
      names, having echoed to the peer, exactly when the frame
      authenticates, the destination accepts a connection, and the
      frame's fields can be encoded again. */
  lemma AuthenticatedPathChosen(data: Bytes, cfg: ServerConfig, reachable: map<Endpoint, seq<Received>>)
    ensures var t := Session(Some(data), cfg, reachable);
      t.toClient != [] <==>
        Authenticated(data, cfg.password).Some?
        && var h := Authenticated(data, cfg.password).value;
        Endpoint(h.host, h.port) in reachable
        && Injector.EncodeFrame(h.password, h.host, h.port).Ok?
    ensures var t := Session(Some(data), cfg, reachable);
      t.toClient != [] ==>
        var h := Authenticated(data, cfg.password).value;
        t.dialed == [Endpoint(h.host, h.port)] && t.relayTo == Some(Endpoint(h.host, h.port))
    ensures var t := Session(Some(data), cfg, reachable);
      t.toClient == [] ==> t.dialed[|t.dialed| - 1] == cfg.decoy
  {
    var t := Session(Some(data), cfg, reachable);
    if Authenticated(data, cfg.password).Some? {
      var h := Authenticated(data, cfg.password).value;
      Injector.EncodeFrameShape(h.password, h.host, h.port);
    }
  }

  /** On the authenticated path the echo is the received frame byte for
      byte, and nothing is forwarded: bytes after the frame in the buffer
      go nowhere. */
  lemma AuthenticatedPathEchoesFrame(data: Bytes, cfg: ServerConfig, reachable: map<Endpoint, seq<Received>>)
    requires Session(Some(data), cfg, reachable).toClient != []
    ensures Injector.DecodeFrame(data).Ok?
    ensures var t := Session(Some(data), cfg, reachable);
      t.toClient == data[..Injector.FrameLength(data)] && t.forwarded == []
  {
    var h := Authenticated(data, cfg.password).value;
    Injector.EncodeFrameShape(h.password, h.host, h.port);
    Injector.EchoExact(data);
  }

  /** A buffer that does not authenticate is forwarded byte for byte to the
      decoy, the only endpoint dialled, and nothing is written back. */
  lemma DisguiseForwardsVerbatim(data: Bytes, cfg: ServerConfig, reachable: map<Endpoint, seq<Received>>)
    requires Authenticated(data, cfg.password).None?
    requires cfg.decoy in reachable
    ensures Session(Some(data), cfg, reachable) == Trace([cfg.decoy], [], Some(cfg.decoy), data)
  {
  }

  /** A frame with the wrong secret and a buffer that is no frame at all
      cause the same outward actions; the only difference is which bytes
      reach the decoy, and those are each buffer itself. */
  lemma WrongSecretIndistinguishable(wrong: Bytes, junk: Bytes, cfg: ServerConfig, reachable: map<Endpoint, seq<Received>>)
    requires Injector.DecodeFrame(wrong).Ok? && Injector.DecodeFrame(wrong).value.password != cfg.password
    requires Injector.DecodeFrame(junk).Err?
    ensures var a := Session(Some(wrong), cfg, reachable);
      var b := Session(Some(junk), cfg, reachable);
      a.dialed == b.dialed == [cfg.decoy] && a.toClient == b.toClient == []
      && a.relayTo == b.relayTo
      && (a.relayTo.Some? ==> a.forwarded == wrong && b.forwarded == junk)
  {
  }

  /** A buffer that does not start with version 1, including the empty
      buffer of a peer that closed at once, takes the disguise path. */
  lemma ForeignProtocolIsDisguised(data: Bytes, cfg: ServerConfig, reachable: map<Endpoint, seq<Received>>)
    requires data == [] || data[0] != Injector.Version
    ensures Session(Some(data), cfg, reachable) == Disguise([], data, cfg, reachable)
  {
  }

  /** Failing to reach the destination of an authenticated frame is caught
      like any other failure: the decoy is dialled next and gets the whole
      buffer. */
  lemma ConnectFailureDiverts(data: Bytes, cfg: ServerConfig, reachable: map<Endpoint, seq<Received>>)
    requires Authenticated(data, cfg.password).Some?
    requires var h := Authenticated(data, cfg.password).value; Endpoint(h.host, h.port) !in reachable
    ensures var h := Authenticated(data, cfg.password).value;
      var t := Session(Some(data), cfg, reachable);
      t.dialed == [Endpoint(h.host, h.port), cfg.decoy] && t.toClient == []
      && t.forwarded == (if cfg.decoy in reachable then data else [])
  {
  }

  /** An authenticated frame whose host bytes are not ASCII cannot be
      echoed (the encoder refuses it), so it too ends on the disguise path,
      after its destination was dialled. */
  lemma NonAsciiAuthenticatedFallsBack(data: Bytes, cfg: ServerConfig, reachable: map<Endpoint, seq<Received>>)
    requires Authenticated(data, cfg.password).Some?
    requires var h := Authenticated(data, cfg.password).value; Endpoint(h.host, h.port) in reachable
    requires !Utf8.IsAscii(Authenticated(data, cfg.password).value.host)
    ensures var h := Authenticated(data, cfg.password).value;
      Session(Some(data), cfg, reachable) == Disguise([Endpoint(h.host, h.port)], data, cfg, reachable)
  {
    var h := Authenticated(data, cfg.password).value;
    Injector.EncodeFrameShape(h.password, h.host, h.port);
    Utf8.EncodeLength(h.host);
  }

  /** When the decoy cannot be reached, a session that fails to
      authenticate ends without relaying. */
  lemma DecoyDownEndsSession(data: Bytes, cfg: ServerConfig, reachable: map<Endpoint, seq<Received>>)
    requires cfg.decoy !in reachable
    requires Session(Some(data), cfg, reachable).toClient == []
    ensures Session(Some(data), cfg, reachable).relayTo == None
    ensures Session(Some(data), cfg, reachable).forwarded == []
  {
  }

  /** The two ends agree: a frame built by an initiator with the same
      secret, whose destination accepts a connection, is echoed byte for
      byte, which is exactly what the initiator requires before relaying. */
  lemma HonestInitiatorAccepted(password: string, host: string, port: int, rest: Bytes,
                                cfg: ServerConfig, reachable: map<Endpoint, seq<Received>>)
    requires Injector.EncodeFrame(password, host, port).Ok?
    requires cfg.password == password && Endpoint(host, port) in reachable
    ensures var frame := Injector.EncodeFrame(password, host, port).value;
      var t := Session(Some(frame + rest), cfg, reachable);
      t == Trace([Endpoint(host, port)], frame, Some(Endpoint(host, port)), [])
      && Injector.DecodeFrame(t.toClient)
         == Ok(Injector.Handshake(Injector.Version, password, host, port))
  {
    var frame := Injector.EncodeFrame(password, host, port).value;
    Injector.FrameRoundTrip(password, host, port, rest);
    Injector.FrameRoundTrip(password, host, port, []);
    assert frame + [] == frame;
  }
}
