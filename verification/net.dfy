/**
 * The sockets the session handlers use, seen from one handler: a
 * connection delivers the outcomes of its recv calls in order (a buffer
 * the peer sent, or an exception such as a timeout) and records what
 * sendall writes; the network decides which endpoints accept a
 * connection (a successful TLS wrap counts as part of a successful
 * connect) and remembers every endpoint dialled.
 */
module Net {
  import opened Wire

  datatype Endpoint = Endpoint(host: string, port: int)

  /** The outcome of one recv: the buffer read, or None when recv raises
      (the socket timed out or the connection was reset). */
  type Received = Option<Bytes>

  /** What the next recv yields when the peer has queued `queue`: its
      first entry, or the empty buffer once the peer has closed. */
  function Next(queue: seq<Received>): Received
  {
    if queue == [] then Some([]) else queue[0]
  }

  /** The queue left after n recv calls. */
  function Drop(queue: seq<Received>, n: nat): (r: seq<Received>)
    ensures |r| == if n <= |queue| then |queue| - n else 0
  {
    if n <= |queue| then queue[n..] else []
  }

  class Connection {
    /** What recv will still yield, one entry per call; once it is used
        up, recv returns the empty buffer (the peer has closed). */
    var incoming: seq<Received>
    /** Everything sendall has written so far. */
    var output: Bytes

    constructor (incoming: seq<Received>)
      ensures this.incoming == incoming && output == []
    {
      this.incoming := incoming;
      output := [];
    }

    /** recv(buffer_size): the buffer, or None where it raises. */
    method Recv() returns (data: Received)
      modifies this`incoming
      ensures data == Next(old(incoming))
      ensures incoming == Drop(old(incoming), 1)
    {
      if incoming == [] {
        data := Some([]);
      } else {
        data := incoming[0];
        incoming := incoming[1..];
      }
    }

    /** sendall(data) */
    method SendAll(data: Bytes)
      modifies this`output
      ensures output == old(output) + data
    {
      output := output + data;
    }
  }

  class Network {
    /** The endpoints that accept a connection, each with what recv will
        yield on that connection. */
    const reachable: map<Endpoint, seq<Received>>
    /** Every endpoint a connect was attempted to, in order. */
    var dialed: seq<Endpoint>

    constructor (reachable: map<Endpoint, seq<Received>>)
      ensures this.reachable == reachable && dialed == []
    {
      this.reachable := reachable;
      dialed := [];
    }

    /** base.connect(host, port): a new connection, or null where the
        Python implementation raises. */
    method Connect(ep: Endpoint) returns (c: Connection?)
      modifies this`dialed
      ensures dialed == old(dialed) + [ep]
      ensures (c != null) <==> ep in reachable
      ensures c != null ==> fresh(c) && c.incoming == reachable[ep] && c.output == []
    {
      dialed := dialed + [ep];
      if ep in reachable {
        c := new Connection(reachable[ep]);
      } else {
        c := null;
      }
    }
  }
}
