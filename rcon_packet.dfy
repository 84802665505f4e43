/** An RCON packet and its frame on the wire, after the "Basic Packet Structure" of
    Valve's Source RCON Protocol: a little-endian int32 length, int32 request id and
    int32 type, the body bytes, and two zero bytes. */
module RconPacket {
  import opened Int32
  import opened RconErrors

  // Packet types. EXECCOMMAND and AUTH_RESPONSE share the code 2: the connection's
  // authentication state, not the code, tells a reply to AUTH from other traffic.
  const ServerDataAuth: int32 := 3
  const ServerDataExecCommand: int32 := 2
  const ServerDataAuthResponse: int32 := 2
  const ServerDataResponseValue: int32 := 0

  // Sizes of the frame's fields, in bytes.
  const LengthFieldSize: nat := 4
  const RequestIdSize: nat := 4
  const TypeSize: nat := 4
  const NullByteSize: nat := 1
  const TerminatorSize: nat := 2 * NullByteSize
  const HeaderSize: nat := LengthFieldSize + RequestIdSize + TypeSize

  /** What the length field counts besides the body: request id, type and terminator. */
  const LengthOverhead: nat := RequestIdSize + TypeSize + TerminatorSize

  /** The longest array Java can allocate, since an array length is an int. */
  const MaxArrayLength: nat := TwoTo31 - 1

  /** The longest body whose whole frame, 14 + |body| bytes, still has an int size. */
  const MaxBodyLength: nat := MaxArrayLength - LengthFieldSize - LengthOverhead

  /** A packet: its fields are set once by the constructor and read by the getters
      getRequestId, getType and getBody. */
  datatype Packet = Packet(requestId: int32, packetType: int32, body: seq<byte>)

  function Min(a: int, b: int): (m: int) { if a < b then a else b }

  // ---------------------------------------------------------------------------
  // Encoding

  /** getPacketBodyLength: the value of the length field, computed in Java int
      arithmetic; it is exact as long as 10 + |body| fits in an int. */
  function PacketBodyLength(body: seq<byte>): (r: int32)
    ensures LengthOverhead + |body| < TwoTo31 ==> r as int == LengthOverhead + |body|
  {
    Wrap(LengthOverhead + |body|)
  }

  /** getPacketLength: the size of the whole frame, the length field's own 4 bytes
      plus the value it holds, again in Java int arithmetic. */
  function PacketLength(packetBodyLength: int32): (r: int32)
    ensures LengthFieldSize + packetBodyLength as int < TwoTo31 ==>
              r as int == LengthFieldSize + packetBodyLength as int
  {
    Wrap(LengthFieldSize + packetBodyLength as int)
  }

  /** The frame of a packet: the reference layout that getAsByteArray writes. A body
      so long that the frame size overflows an int has no frame (ByteBuffer.allocate
      is then asked for a negative size and throws). */
  function Encode(p: Packet): (r: Result<seq<byte>>)
    ensures r.Ok? ==> |r.value| == HeaderSize + |p.body| + TerminatorSize
  {
    if |p.body| > MaxBodyLength then Err(IllegalArgument)
    else
      Ok(ToLittleEndian((LengthOverhead + |p.body|) as int32)
         + ToLittleEndian(p.requestId)
         + ToLittleEndian(p.packetType)
         + p.body
         + [0, 0])
  }

  /** The size Java computes for the frame buffer is negative exactly when the body is
      longer than MaxBodyLength, and is 14 + |body| otherwise. */
  lemma {:induction false} FrameSizeOverflows(body: seq<byte>)
    requires |body| <= MaxArrayLength
    ensures PacketLength(PacketBodyLength(body)) < 0 <==> |body| > MaxBodyLength
    ensures |body| <= MaxBodyLength ==>
              PacketLength(PacketBodyLength(body)) as int == HeaderSize + |body| + TerminatorSize
  {
    var n := PacketBodyLength(body);
    if LengthOverhead + |body| < TwoTo31 {
      assert n as int == LengthOverhead + |body|;
      if |body| > MaxBodyLength {
        var m := PacketLength(n);
        assert (m as int - (LengthFieldSize + n as int)) % TwoTo32 == 0;
        assert m as int == LengthFieldSize + n as int - TwoTo32;
      }
    } else {
      assert n as int == LengthOverhead + |body| - TwoTo32;
    }
  }

  /** ByteBuffer.putInt in little-endian order at the buffer's position. */
  method PutInt(buffer: array<byte>, position: nat, x: int32) returns (next: nat)
    requires position + 4 <= buffer.Length
    modifies buffer
    ensures next == position + 4
    ensures buffer[..next] == old(buffer[..position]) + ToLittleEndian(x)
    ensures buffer[next..] == old(buffer[next..])
  {
    var b := ToLittleEndian(x);
    buffer[position] := b[0];
    buffer[position + 1] := b[1];
    buffer[position + 2] := b[2];
    buffer[position + 3] := b[3];
    next := position + 4;
    assert buffer[..next] == buffer[..position] + b;
  }

  /** ByteBuffer.put of a byte array at the buffer's position. */
  method Put(buffer: array<byte>, position: nat, bytes: seq<byte>) returns (next: nat)
    requires position + |bytes| <= buffer.Length
    modifies buffer
    ensures next == position + |bytes|
    ensures buffer[..next] == old(buffer[..position]) + bytes
    ensures buffer[next..] == old(buffer[next..])
  {
    ghost var before := buffer[..position];
    var i := 0;
    while i < |bytes|
      invariant 0 <= i <= |bytes|
      invariant buffer[..position + i] == before + bytes[..i]
      invariant buffer[position + |bytes|..] == old(buffer[position + |bytes|..])
    {
      buffer[position + i] := bytes[i];
      assert buffer[..position + i + 1] == buffer[..position + i] + [bytes[i]];
      assert bytes[..i + 1] == bytes[..i] + [bytes[i]];
      i := i + 1;
    }
    assert bytes[..i] == bytes;
    next := position + i;
  }

  /** getAsByteArray: allocates the frame buffer and fills it field by field. */
  method GetAsByteArray(p: Packet) returns (r: Result<seq<byte>>)
    requires |p.body| <= MaxArrayLength
    ensures r == Encode(p)
  {
    var packetBodyLength := PacketBodyLength(p.body);
    var packetLength := PacketLength(packetBodyLength);
    FrameSizeOverflows(p.body);
    if packetLength < 0 {
      return Err(IllegalArgument);
    }
    assert packetBodyLength == (LengthOverhead + |p.body|) as int32;
    var buffer := new byte[packetLength as int];
    var position := 0;
    // header
    position := PutInt(buffer, position, packetBodyLength);
    ghost var written := ToLittleEndian(packetBodyLength);
    assert buffer[..position] == written;
    position := PutInt(buffer, position, p.requestId);
    written := written + ToLittleEndian(p.requestId);
    assert buffer[..position] == written;
    position := PutInt(buffer, position, p.packetType);
    written := written + ToLittleEndian(p.packetType);
    assert buffer[..position] == written;
    // body
    position := Put(buffer, position, p.body);
    written := written + p.body;
    assert buffer[..position] == written;
    // the two null bytes
    position := Put(buffer, position, [0, 0]);
    written := written + [0, 0];
    assert buffer[..position] == written;
    assert position == buffer.Length;
    assert buffer[..] == buffer[..position];
    r := Ok(buffer[..]);
  }

  /** The frame is 14 + |body| bytes long and holds, in order, the length field
      10 + |body|, the request id, the type, the body verbatim and two zero bytes,
      each integer in the little-endian layout that getInt reads back. */
  lemma {:induction false} EncodeLayout(p: Packet)
    requires |p.body| <= MaxBodyLength
    ensures Encode(p).Ok?
    ensures var f := Encode(p).value;
      && |f| == HeaderSize + |p.body| + TerminatorSize
      && FromLittleEndian(f[0..4]) as int == LengthOverhead + |p.body|
      && FromLittleEndian(f[4..8]) == p.requestId
      && FromLittleEndian(f[8..12]) == p.packetType
      && f[HeaderSize..HeaderSize + |p.body|] == p.body
      && f[HeaderSize + |p.body|] == 0 && f[HeaderSize + |p.body| + 1] == 0
  {
    var f := Encode(p).value;
    var len := (LengthOverhead + |p.body|) as int32;
    assert f[0..4] == ToLittleEndian(len);
    assert f[4..8] == ToLittleEndian(p.requestId);
    assert f[8..12] == ToLittleEndian(p.packetType);
    FromToLittleEndian(len);
    FromToLittleEndian(p.requestId);
    FromToLittleEndian(p.packetType);
  }

  /** Encoding fails exactly for bodies whose frame size overflows an int. This restates
      the first branch of `Encode`; that it is the condition under which ByteBuffer.allocate
      throws comes from `FrameSizeOverflows` together with `GetAsByteArray`'s contract. */
  lemma EncodeFailsIff(p: Packet)
    ensures Encode(p).Err? <==> |p.body| > MaxBodyLength
    ensures Encode(p).Err? ==> Encode(p).error == IllegalArgument
  {
  }

  // ---------------------------------------------------------------------------
  // Decoding

  /** A decoded packet and how many bytes of the stream it took. */
  datatype Decoded = Decoded(packet: Packet, consumed: nat)

  /** The body length a length field announces: the field minus the 10 bytes of id,
      type and terminator, and 0 for a field that is too small. */
  function BodyLength(length: int32): (n: nat)
    ensures n == 0 <==> length as int <= LengthOverhead
    ensures n > 0 ==> n + LengthOverhead == length as int
    ensures n <= if length < 0 then 0 else length as int
  {
    var d := length as int - RequestIdSize - TypeSize - TerminatorSize;
    if d < 0 then 0 else d
  }

  /** The reference decoder: a 12-byte header, BodyLength(length) body bytes, then up to
      two terminator bytes, which are skipped unchecked. An input that ends inside the
      header or the body is an end-of-stream failure. */
  function Decode(s: seq<byte>): (r: Result<Decoded>)
    ensures r.Err? ==> r.error == EndOfStream
    ensures r.Ok? ==> HeaderSize + |r.value.packet.body| <= r.value.consumed <= |s|
    ensures r.Ok? ==> r.value.consumed <= HeaderSize + |r.value.packet.body| + TerminatorSize
  {
    if |s| < HeaderSize then Err(EndOfStream)
    else
      var bodyLength := BodyLength(FromLittleEndian(s[0..4]));
      if |s| - HeaderSize < bodyLength then Err(EndOfStream)
      else
        var skipped := Min(TerminatorSize, |s| - HeaderSize - bodyLength);
        Ok(Decoded(Packet(FromLittleEndian(s[4..8]), FromLittleEndian(s[8..12]),
                          s[HeaderSize..HeaderSize + bodyLength]),
                   HeaderSize + bodyLength + skipped))
  }

  /** createFromStream: reads the header into a 12-byte array, the body into an array of
      the announced length (readFully, which fails at end of stream), then skips the two
      terminator bytes. */
  method CreateFromStream(input: seq<byte>) returns (r: Result<Decoded>)
    ensures r == Decode(input)
  {
    // The 12 header bytes; end of stream before all of them is a failure.
    var header := new byte[HeaderSize];
    var position := 0;
    while position < HeaderSize
      invariant 0 <= position <= HeaderSize
      invariant position <= |input|
      invariant header[..position] == input[..position]
    {
      if position == |input| {
        return Err(EndOfStream);
      }
      header[position] := input[position];
      position := position + 1;
    }
    assert header[..] == input[..HeaderSize];
    var length := FromLittleEndian(header[0..4]);
    var requestId := FromLittleEndian(header[4..8]);
    var packetType := FromLittleEndian(header[8..12]);

    var packetBodyLength := length as int - RequestIdSize - TypeSize - TerminatorSize;
    packetBodyLength := if packetBodyLength < 0 then 0 else packetBodyLength;
    var packetBody := new byte[packetBodyLength];

    // The announced body, byte by byte; end of stream before its end is a failure.
    var i := 0;
    while i < packetBodyLength
      invariant 0 <= i <= packetBodyLength
      invariant position == HeaderSize + i <= |input|
      invariant packetBody[..i] == input[HeaderSize..position]
    {
      if position == |input| {
        return Err(EndOfStream);
      }
      packetBody[i] := input[position];
      i := i + 1;
      position := position + 1;
    }

    // skip the null bytes, as many of them as the stream still holds
    var skipped := Min(TerminatorSize, |input| - position);
    position := position + skipped;
    assert packetBody[..] == packetBody[..i];
    r := Ok(Decoded(Packet(requestId, packetType, packetBody[..]), position));
  }

  /** Round trip: decoding a frame, whatever follows it on the stream, gives back the
      packet and consumes exactly the 14 + |body| bytes of the frame. */
  lemma {:induction false} DecodeEncode(p: Packet, rest: seq<byte>)
    requires Encode(p).Ok?
    ensures Decode(Encode(p).value + rest)
            == Ok(Decoded(p, HeaderSize + |p.body| + TerminatorSize))
  {
    EncodeLayout(p);
    var f := Encode(p).value;
    var s := f + rest;
    assert s[0..4] == f[0..4] && s[4..8] == f[4..8] && s[8..12] == f[8..12];
    assert s[HeaderSize..HeaderSize + |p.body|] == p.body;
  }

  /** The converse round trip: a decoded frame whose length field is at least 10 and whose
      two terminator bytes were present and zero is exactly the encoding of its packet. */
  lemma {:induction false} EncodeDecode(s: seq<byte>)
    requires Decode(s).Ok?
    requires FromLittleEndian(s[0..4]) as int >= LengthOverhead
    requires Decode(s).value.consumed == HeaderSize + |Decode(s).value.packet.body| + TerminatorSize
    requires |Decode(s).value.packet.body| <= MaxBodyLength
    requires s[Decode(s).value.consumed - 2] == 0 && s[Decode(s).value.consumed - 1] == 0
    ensures Encode(Decode(s).value.packet) == Ok(s[..Decode(s).value.consumed])
  {
    var d := Decode(s).value;
    var p := d.packet;
    var n := d.consumed;
    var len := (LengthOverhead + |p.body|) as int32;
    assert len == FromLittleEndian(s[0..4]);
    ToFromLittleEndian(s[0..4]);
    ToFromLittleEndian(s[4..8]);
    ToFromLittleEndian(s[8..12]);
    var f := Encode(p).value;
    assert f == s[0..4] + s[4..8] + s[8..12] + s[HeaderSize..n - 2] + s[n - 2..n];
    assert s[..n] == s[0..4] + s[4..8] + s[8..12] + s[HeaderSize..n - 2] + s[n - 2..n];
  }

  /** Decoding follows the length field: a header announcing length L is followed by
      BodyLength(L) body bytes, and when the stream holds them and the terminator, the
      packet takes exactly 12 + BodyLength(L) + 2 bytes; a stream that ends before the
      header or the announced body is complete fails. */
  lemma DecodeFollowsLengthField(s: seq<byte>)
    ensures |s| < HeaderSize ==> Decode(s) == Err(EndOfStream)
    ensures |s| >= HeaderSize ==>
      var n := BodyLength(FromLittleEndian(s[0..4]));
      && (|s| < HeaderSize + n ==> Decode(s) == Err(EndOfStream))
      && (|s| >= HeaderSize + n ==>
            Decode(s).Ok? && |Decode(s).value.packet.body| == n
            && Decode(s).value.consumed <= HeaderSize + n + TerminatorSize
            && Decode(s).value.consumed <= |s|)
      && (|s| >= HeaderSize + n + TerminatorSize ==>
            Decode(s).Ok? && Decode(s).value.consumed == HeaderSize + n + TerminatorSize)
  {
  }

  /** The frame of id 1, type 2 and body "hi" is [0C 00 00 00 | 01 00 00 00 | 02 00 00 00 |
      'h' 'i' | 00 00], and it decodes back to that packet. */
  lemma DecodeExample()
    ensures Encode(Packet(1, 2, [0x68, 0x69]))
            == Ok([0x0C, 0, 0, 0, 1, 0, 0, 0, 2, 0, 0, 0, 0x68, 0x69, 0, 0])
    ensures Decode([0x0C, 0, 0, 0, 1, 0, 0, 0, 2, 0, 0, 0, 0x68, 0x69, 0, 0])
            == Ok(Decoded(Packet(1, 2, [0x68, 0x69]), 16))
  {
    var s: seq<byte> := [0x0C, 0, 0, 0, 1, 0, 0, 0, 2, 0, 0, 0, 0x68, 0x69, 0, 0];
    assert s[0..4] == [0x0C, 0, 0, 0] && s[4..8] == [1, 0, 0, 0] && s[8..12] == [2, 0, 0, 0];
    assert FromLittleEndian(s[0..4]) == 12;
    assert FromLittleEndian(s[4..8]) == 1 && FromLittleEndian(s[8..12]) == 2;
    assert s[HeaderSize..HeaderSize + 2] == [0x68, 0x69];
    assert ToLittleEndian(12) == [0x0C, 0, 0, 0];
    assert ToLittleEndian(1) == [1, 0, 0, 0] && ToLittleEndian(2) == [2, 0, 0, 0];
    var p := Packet(1, 2, [0x68, 0x69]);
    assert (LengthOverhead + |p.body|) as int32 == 12;
    assert Encode(p).value
           == ToLittleEndian(12) + ToLittleEndian(1) + ToLittleEndian(2) + [0x68, 0x69] + [0, 0]
           == [0x0C, 0, 0, 0] + [1, 0, 0, 0] + [2, 0, 0, 0] + [0x68, 0x69] + [0, 0];
    assert [0x0C, 0, 0, 0] + [1, 0, 0, 0] + [2, 0, 0, 0] + [0x68, 0x69] + [0, 0] == s;
  }

  /** The same 16 bytes with the length field 0x0E (14) announce a 4-byte body: the decoder
      takes the two zero bytes into the body and finds no terminator left to skip. */
  lemma DecodeExampleWithLength14()
    ensures Decode([0x0E, 0, 0, 0, 1, 0, 0, 0, 2, 0, 0, 0, 0x68, 0x69, 0, 0])
            == Ok(Decoded(Packet(1, 2, [0x68, 0x69, 0, 0]), 16))
  {
    var s: seq<byte> := [0x0E, 0, 0, 0, 1, 0, 0, 0, 2, 0, 0, 0, 0x68, 0x69, 0, 0];
    assert s[0..4] == [0x0E, 0, 0, 0] && s[4..8] == [1, 0, 0, 0] && s[8..12] == [2, 0, 0, 0];
    assert FromLittleEndian(s[0..4]) == 14;
    assert FromLittleEndian(s[4..8]) == 1 && FromLittleEndian(s[8..12]) == 2;
    assert s[HeaderSize..HeaderSize + 4] == [0x68, 0x69, 0, 0];
  }

  // ---------------------------------------------------------------------------
  // The decoder as createFromStream is written

  /** The body length as createFromStream computes it: `length - 4 - 4 - 2` in Java int
      arithmetic, which wraps for the ten most negative lengths, then clamped at 0. */
  function BodyLengthAsWritten(length: int32): (n: nat)
    ensures length as int >= LengthOverhead - TwoTo31 ==> n == BodyLength(length)
    ensures length as int < LengthOverhead - TwoTo31 ==> n == TwoTo32 + length as int - LengthOverhead
  {
    var d := Wrap(length as int - RequestIdSize - TypeSize - TerminatorSize);
    if d < 0 then 0 else d as nat
  }

  /** createFromStream as written: `read(header)` does not check how many bytes it got, so
      when the stream ends inside the header the missing bytes stay zero and decoding goes
      on; the terminator read is unchecked too. */
  function DecodeAsWritten(s: seq<byte>): (r: Result<Decoded>)
    ensures r.Err? ==> r.error == EndOfStream
    ensures r.Ok? ==> r.value.consumed <= |s|
  {
    var got := Min(HeaderSize, |s|);
    var header := s[..got] + seq(HeaderSize - got, _ => 0 as byte);
    var bodyLength := BodyLengthAsWritten(FromLittleEndian(header[0..4]));
    var rest := |s| - got;
    if rest < bodyLength then Err(EndOfStream)
    else
      Ok(Decoded(Packet(FromLittleEndian(header[4..8]), FromLittleEndian(header[8..12]),
                        s[got..got + bodyLength]),
                 got + bodyLength + Min(TerminatorSize, rest - bodyLength)))
  }

  /** At end of stream the decoder as written produces a packet out of nothing: id 0,
      type 0, empty body, having consumed no byte. The reference decoder fails. */
  lemma PhantomPacketAtEndOfStream()
    ensures DecodeAsWritten([]) == Ok(Decoded(Packet(0, 0, []), 0))
    ensures Decode([]) == Err(EndOfStream)
  {
    var header := seq(HeaderSize, _ => 0 as byte);
    assert header[0..4] == [0, 0, 0, 0];
    assert header[4..8] == [0, 0, 0, 0];
    assert header[8..12] == [0, 0, 0, 0];
  }

  /** The most negative length field wraps, as written, to an announced body of
      2^31 - 10 bytes instead of the clamped 0. */
  lemma BodyLengthWrapsAsWritten()
    ensures BodyLengthAsWritten(-0x8000_0000) == TwoTo31 - LengthOverhead
    ensures BodyLength(-0x8000_0000) == 0
  {
  }

  /** The reference decoder differs from the code as written only on the inputs of the two
      lemmas above: a stream that ends inside the header, and the ten most negative
      length fields. */
  lemma {:induction false} DecodeAgreesWithAsWritten(s: seq<byte>)
    requires |s| >= HeaderSize
    requires FromLittleEndian(s[0..4]) as int >= LengthOverhead - TwoTo31
    ensures Decode(s) == DecodeAsWritten(s)
  {
    var header := s[..HeaderSize] + seq(0, _ => 0 as byte);
    assert header == s[..HeaderSize];
    assert header[0..4] == s[0..4] && header[4..8] == s[4..8] && header[8..12] == s[8..12];
    var length := FromLittleEndian(s[0..4]);
    assert BodyLengthAsWritten(length) == BodyLength(length);
  }
}
