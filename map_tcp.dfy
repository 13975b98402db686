/** The ECC's TCP client `MAP_TCP`: a socket handle that is either invalid
    or open, `disconnect`, the raw `send`, and `sendPacket`, which frames a
    request as `[0x51][len, 4 bytes little-endian][payload]`. The OS calls
    `::send` and `closesocket` are not modelled; what was handed to them is
    kept in ghost logs, and what `::send` returned is a parameter. */
module MapTcp {
  import opened Bytes

  /** The header byte the server's receive loop expects. */
  const REQUEST_HEADER: u8 := 0x51
  /** Bytes before the payload: the header byte and the length. */
  const PREFIX_SIZE: nat := 5
  /** `SOCKET_ERROR` as returned by `::send`. */
  const SOCKET_ERROR: int := -1
  /** One past the largest C `int`. */
  const INT_LIMIT: int := 0x8000_0000

  datatype Socket = InvalidSocket | Open(handle: nat)

  /** The byte whose value is `n`, counted out one increment at a time. */
  function ByteOf(n: nat): u8
    requires n < 0x100
  {
    if n == 0 then 0 else ByteOf(n - 1) + 1
  }

  /** `(uint8_t)(x & 0xFF)` for a non-negative `int x`. */
  function LowByte(x: int): u8
    requires x >= 0
  {
    ByteOf(x % 0x100)
  }

  /** The four length bytes of `sendPacket`: `len`, `len >> 8`, `len >> 16`
      and `len >> 24`, each masked to a byte. */
  function LenBytes(len: int): (b: seq<u8>)
    requires 0 <= len < INT_LIMIT
    ensures |b| == 4
  {
    [LowByte(len), LowByte(len / 0x100), LowByte(len / 0x1_0000), LowByte(len / 0x100_0000)]
  }

  /** The length a receiver reads back from four little-endian bytes. */
  function LenOf(b: seq<u8>): int
    requires |b| == 4
  {
    b[0] as int + 0x100 * b[1] as int + 0x1_0000 * b[2] as int + 0x100_0000 * b[3] as int
  }

  lemma {:induction false} ByteExact(n: nat)
    requires n < 0x100
    ensures ByteOf(n) as int == n
  {
    if n > 0 {
      ByteExact(n - 1);
      ByteInc(ByteOf(n - 1));
    }
  }

  lemma ByteInc(b: u8)
    requires b as int < 0xFF
    ensures (b + 1) as int == b as int + 1
  {
  }

  lemma LowByteValue(x: int)
    requires x >= 0
    ensures LowByte(x) as int == x % 0x100
  {
    ByteExact(x % 0x100);
  }

  lemma LenDigits(len: int)
    requires 0 <= len < INT_LIMIT
    ensures var b := LenBytes(len);
      b[0] as int == len % 0x100 && b[1] as int == len / 0x100 % 0x100 &&
      b[2] as int == len / 0x1_0000 % 0x100 && b[3] as int == len / 0x100_0000
  {
    LowByteValue(len);
    LowByteValue(len / 0x100);
    LowByteValue(len / 0x1_0000);
    LowByteValue(len / 0x100_0000);
  }

  /** A non-negative number is its base-256 digits. */
  lemma {:induction false} Digits(len: int)
    requires 0 <= len
    ensures len == len % 0x100 + 0x100 * (len / 0x100 % 0x100) +
      0x1_0000 * (len / 0x1_0000 % 0x100) + 0x100_0000 * (len / 0x100_0000)
  {
    var q1 := len / 0x100;
    var q2 := q1 / 0x100;
    var q3 := q2 / 0x100;
    assert len == len % 0x100 + 0x100 * q1;
    assert q1 == q1 % 0x100 + 0x100 * q2;
    assert q2 == q2 % 0x100 + 0x100 * q3;
    assert len / 0x1_0000 == q2;
    assert len / 0x100_0000 == q3;
  }

  /** Reading the length bytes back recovers every non-negative `int`. */
  lemma LenRoundTrip(len: int)
    requires 0 <= len < INT_LIMIT
    ensures LenOf(LenBytes(len)) == len
  {
    LenDigits(len);
    Digits(len);
  }

  /** The request frame for `payload`. */
  function TcpFrame(payload: seq<u8>): (f: seq<u8>)
    requires |payload| < INT_LIMIT
  {
    [REQUEST_HEADER] + LenBytes(|payload|) + payload
  }

  /** What the server makes of a received frame: the payload, when the
      header byte is right and the length field matches the bytes that
      follow it. */
  function DecodeTcpFrame(b: seq<u8>): Option<seq<u8>>
  {
    if |b| < PREFIX_SIZE || b[0] != REQUEST_HEADER || LenOf(b[1..PREFIX_SIZE]) != |b| - PREFIX_SIZE then None
    else Some(b[PREFIX_SIZE..])
  }

  /** The layout of a request frame: header byte, little-endian length that
      reads back as the payload length, the payload verbatim, and nothing
      else. */
  lemma TcpFrameLayout(payload: seq<u8>)
    requires |payload| < INT_LIMIT
    ensures var f := TcpFrame(payload);
      |f| == |payload| + PREFIX_SIZE && f[0] == REQUEST_HEADER &&
      f[1..PREFIX_SIZE] == LenBytes(|payload|) && LenOf(f[1..PREFIX_SIZE]) == |payload| &&
      f[PREFIX_SIZE..] == payload
  {
    var f := TcpFrame(payload);
    assert f[1..PREFIX_SIZE] == LenBytes(|payload|);
    assert f[PREFIX_SIZE..] == payload;
    LenRoundTrip(|payload|);
  }

  /** A frame decodes back to its payload. */
  lemma DecodeTcpFrameRoundTrip(payload: seq<u8>)
    requires |payload| < INT_LIMIT
    ensures DecodeTcpFrame(TcpFrame(payload)) == Some(payload)
  {
    TcpFrameLayout(payload);
  }

  /** Two payloads with the same frame are the same payload. */
  lemma TcpFrameInjective(p: seq<u8>, q: seq<u8>)
    requires |p| < INT_LIMIT && |q| < INT_LIMIT && TcpFrame(p) == TcpFrame(q)
    ensures p == q
  {
    DecodeTcpFrameRoundTrip(p);
    DecodeTcpFrameRoundTrip(q);
  }

  class MapTcpClient {
    var socket: Socket
    /** Every buffer handed to `::send`, in order. */
    ghost var wire: seq<seq<u8>>
    /** Every handle handed to `closesocket`, in order. */
    ghost var closed: seq<nat>

    constructor ()
      ensures socket == InvalidSocket && wire == [] && closed == []
    {
      socket := InvalidSocket;
      wire := [];
      closed := [];
    }

    /** Closes an open socket and forgets it; on an invalid one it does
        nothing, so a second call never closes anything. */
    method Disconnect()
      modifies this`socket, this`closed
      ensures socket == InvalidSocket
      ensures old(socket).Open? ==> closed == old(closed) + [old(socket).handle]
      ensures old(socket) == InvalidSocket ==> closed == old(closed)
    {
      if socket != InvalidSocket {
        closed := closed + [socket.handle];
        socket := InvalidSocket;
      }
    }

    /** `send(data, len)`: -1 without a socket and without touching it;
        otherwise the first `len` bytes go to `::send` as they are. An OS
        error is mapped to -1, which is what `SOCKET_ERROR` already is, so
        `::send`'s result comes back unchanged. */
    method Send(data: seq<u8>, len: int, sent: int) returns (r: int)
      requires 0 <= len <= |data|
      modifies this`wire
      ensures socket == InvalidSocket ==> r == -1 && wire == old(wire)
      ensures socket != InvalidSocket ==> wire == old(wire) + [data[..len]] && r == sent
    {
      if socket == InvalidSocket {
        return -1;
      }
      wire := wire + [data[..len]];
      if sent == SOCKET_ERROR {
        return -1;
      }
      return sent;
    }

    /** `sendPacket(data, len)`: -1 without a socket, before any frame is
        built; otherwise the frame `[0x51][len LE][data[0..len)]` is built
        byte by byte and handed to `::send` whole, and `::send`'s result
        comes back unchanged, as in `send`. */
    method SendPacket(data: seq<u8>, len: int, sent: int) returns (r: int)
      requires 0 <= len <= |data| && len < INT_LIMIT
      modifies this`wire
      ensures socket == InvalidSocket ==> r == -1 && wire == old(wire)
      ensures socket != InvalidSocket ==> wire == old(wire) + [TcpFrame(data[..len])] && r == sent
    {
      if socket == InvalidSocket {
        return -1;
      }
      var packet: seq<u8> := [];
      packet := packet + [REQUEST_HEADER];
      packet := packet + [LowByte(len)];
      packet := packet + [LowByte(len / 0x100)];
      packet := packet + [LowByte(len / 0x1_0000)];
      packet := packet + [LowByte(len / 0x100_0000)];
      packet := packet + data[..len];
      assert packet == TcpFrame(data[..len]);
      wire := wire + [packet];
      if sent == SOCKET_ERROR {
        return -1;
      }
      return sent;
    }
  }
}
