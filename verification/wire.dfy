/**
 * Byte-level building blocks shared by both codecs: bytes, the error
 * outcome of a failed read or pack, big-endian 16-bit integers and the
 * read cursor that the decoders advance (the role BitStream.read plays
 * in sockssl).
 */
module Wire {

  type byte = x: int | 0 <= x < 256
  type Bytes = seq<byte>

  datatype Option<+T> = None | Some(value: T)

  /** Why a decode or an encode raised. */
  datatype Error =
    | ReadPastEnd            // a read ran past the end of the buffer
    | OutOfRange             // pack('uint8') or pack('uint16') of a value that does not fit
    | LengthMismatch         // pack('bytesN') of a value whose length is not N
    | UnknownAtyp(atyp: int) // SOCKS address type other than 1, 3 or 4
    | InvalidUtf8            // bytes('...').decode('utf-8') rejected the bytes
    | IllegalAddress         // inet_pton rejected the address text

  datatype Result<+T> = Ok(value: T) | Err(error: Error) {
    predicate IsFailure() { Err? }
    function PropagateFailure<U>(): Result<U> requires Err? { Err(error) }
    function Extract(): T requires Ok? { value }
  }

  /** The 2-byte big-endian form of a 16-bit unsigned integer. */
  function Uint16Be(v: int): (r: Bytes)
    requires 0 <= v < 0x1_0000
    ensures |r| == 2 && (r[0] as int) * 256 + r[1] as int == v
  {
    [v / 256, v % 256]
  }

  /** The value of a big-endian 16-bit unsigned integer. */
  function Uint16Value(hi: byte, lo: byte): (v: int)
    ensures 0 <= v < 0x1_0000
  {
    (hi as int) * 256 + lo as int
  }

  lemma Uint16RoundTrip(v: int)
    requires 0 <= v < 0x1_0000
    ensures Uint16Value(Uint16Be(v)[0], Uint16Be(v)[1]) == v
  {
  }

  /** Packing a value read from two bytes gives those two bytes back. */
  lemma Uint16Echo(hi: byte, lo: byte)
    ensures Uint16Be(Uint16Value(hi, lo)) == [hi, lo]
  {
  }

  /** pack('uint8', v): one byte, or an error when v does not fit. */
  function PackUint8(v: int): (r: Result<Bytes>)
    ensures r.Ok? <==> 0 <= v < 256
    ensures r.Ok? ==> |r.value| == 1 && r.value[0] == v
  {
    if 0 <= v < 256 then Ok([v]) else Err(OutOfRange)
  }

  /** pack('uint16', v): two big-endian bytes, or an error when v does not fit. */
  function PackUint16(v: int): (r: Result<Bytes>)
    ensures r.Ok? <==> 0 <= v < 0x1_0000
    ensures r.Ok? ==> r.value == Uint16Be(v)
  {
    if 0 <= v < 0x1_0000 then Ok(Uint16Be(v)) else Err(OutOfRange)
  }

  /** pack('bytesN', v): the bytes of v when there are exactly N of them.
      A zero length packs nothing. */
  function PackBytes(n: nat, v: Bytes): (r: Result<Bytes>)
    ensures r.Ok? <==> (n == 0 || |v| == n)
    ensures r.Ok? ==> |r.value| == n && (n > 0 ==> r.value == v)
  {
    if n == 0 then Ok([]) else if |v| == n then Ok(v) else Err(LengthMismatch)
  }

  /** A read cursor over a received buffer. */
  class Reader {
    const data: Bytes
    var pos: nat

    ghost predicate Valid()
      reads this
    {
      pos <= |data|
    }

    constructor (data: Bytes)
      ensures Valid() && this.data == data && pos == 0
    {
      this.data := data;
      pos := 0;
    }

    /** read('uint8') */
    method ReadUint8() returns (r: Result<byte>)
      requires Valid()
      modifies this`pos
      ensures Valid()
      ensures old(pos) < |data| ==> r == Ok(data[old(pos)]) && pos == old(pos) + 1
      ensures old(pos) >= |data| ==> r == Err(ReadPastEnd) && pos == old(pos)
    {
      if pos < |data| {
        r := Ok(data[pos]);
        pos := pos + 1;
      } else {
        r := Err(ReadPastEnd);
      }
    }

    /** read('bytesN') */
    method ReadBytes(n: nat) returns (r: Result<Bytes>)
      requires Valid()
      modifies this`pos
      ensures Valid()
      ensures old(pos) + n <= |data| ==> r == Ok(data[old(pos)..old(pos) + n]) && pos == old(pos) + n
      ensures old(pos) + n > |data| ==> r == Err(ReadPastEnd) && pos == old(pos)
    {
      if pos + n <= |data| {
        r := Ok(data[pos..pos + n]);
        pos := pos + n;
      } else {
        r := Err(ReadPastEnd);
      }
    }

    /** read('uint16'), big-endian */
    method ReadUint16() returns (r: Result<int>)
      requires Valid()
      modifies this`pos
      ensures Valid()
      ensures old(pos) + 2 <= |data| ==>
        r == Ok(Uint16Value(data[old(pos)], data[old(pos) + 1])) && pos == old(pos) + 2
      ensures old(pos) + 2 > |data| ==> r == Err(ReadPastEnd) && pos == old(pos)
    {
      if pos + 2 <= |data| {
        r := Ok(Uint16Value(data[pos], data[pos + 1]));
        pos := pos + 2;
      } else {
        r := Err(ReadPastEnd);
      }
    }
  }
}
