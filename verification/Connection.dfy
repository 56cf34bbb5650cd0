/** The connection object: byte arrays filled and parsed in place. */
module Connection {
  import opened BigEndian
  import opened WireFormat
  import opened Messages
  import opened Options
  import opened Slices

  datatype Result<+T> = Ok(value: T) | Err(error: Error)

  /** The buffered reader of a connection: what will ever arrive, and how far it was read. */
  class Reader {
    const data: seq<byte>
    var pos: nat

    constructor (data: seq<byte>)
      ensures Valid() && Remaining() == data
    {
      this.data := data;
      pos := 0;
    }

    ghost predicate Valid()
      reads this
    {
      pos <= |data|
    }

    ghost function Remaining(): seq<byte>
      requires Valid()
      reads this
    {
      data[pos..]
    }

    /** io.ReadFull: fills `buf`, or takes all there is and reports why it fell short. */
    method ReadFull(buf: array<byte>) returns (err: Option<Error>)
      requires Valid()
      modifies this, buf
      ensures Valid()
      ensures match WireFormat.ReadFull(old(Remaining()), buf.Length)
              case Got(bytes, rest) => err == None && buf[..] == bytes && Remaining() == rest
              case Stop(e, rest) => err == Some(e) && Remaining() == rest
    {
      var n := 0;
      while n < buf.Length && pos < |data|
        invariant pos == old(pos) + n <= |data| && n <= buf.Length
        invariant buf[..n] == data[old(pos)..pos]
      {
        buf[n] := data[pos];
        n, pos := n + 1, pos + 1;
        assert data[old(pos)..pos] == data[old(pos)..pos - 1] + [data[pos - 1]];
        assert buf[..n] == buf[..n - 1] + [buf[n - 1]];
      }
      if n == buf.Length {
        assert buf[..] == buf[..n];
        err := None;
      } else if n == 0 {
        err := Some(EOF);
      } else {
        err := Some(UnexpectedEOF);
      }
    }
  }

  /** maskBytes on the slice `a[lo..]`. */
  method MaskBytes(a: array<byte>, lo: nat, key: Key)
    requires lo <= a.Length
    modifies a
    ensures a[..] == old(a[..lo]) + Mask(old(a[lo..]), key)
  {
    for i := lo to a.Length
      invariant forall j :: 0 <= j < lo || i <= j < a.Length ==> a[j] == old(a[j])
      invariant forall j :: lo <= j < i ==> a[j] == old(a[j]) ^ key[(j - lo) % 4]
    {
      a[i] := a[i] ^ key[(i - lo) % 4];
    }
    assert a[..] == a[..lo] + a[lo..];
    assert a[..lo] == old(a[..lo]);
    assert a[lo..] == Mask(old(a[lo..]), key);
  }

  class Conn {
    const isServer: bool
    const isClient: bool
    const maxFrameSize: int
    const maxMessageSize: int
    /** The random source of masking keys. */
    const keys: KeySource
    const reader: Reader

    var closed: bool
    var messageBuffer: seq<byte>
    var fragmentedWriteInProgress: bool
    /** How many keys were drawn. */
    var drawn: nat
    /** Everything flushed to the network. */
    var output: seq<byte>

    constructor (isServer: bool, isClient: bool, maxFrameSize: int, maxMessageSize: int, keys: KeySource,
                 reader: Reader)
      ensures this.isServer == isServer && this.isClient == isClient
      ensures this.maxFrameSize == maxFrameSize && this.maxMessageSize == maxMessageSize
      ensures this.keys == keys && this.reader == reader
      ensures !closed && !fragmentedWriteInProgress && messageBuffer == [] && drawn == 0 && output == []
    {
      this.isServer, this.isClient := isServer, isClient;
      this.maxFrameSize, this.maxMessageSize := maxFrameSize, maxMessageSize;
      this.keys, this.reader := keys, reader;
      closed, fragmentedWriteInProgress := false, false;
      messageBuffer, drawn, output := [], 0, [];
    }

    function End(): Endpoint {
      Endpoint(isServer, isClient, maxFrameSize, maxMessageSize)
    }

    /** Exactly these frames were written, one after the other, with the next unused keys. */
    twostate predicate Wrote(fs: seq<Frame>)
      reads this
    {
      && output == old(output) + EncodeAll(fs, keys, old(drawn))
      && drawn == old(drawn) + KeysFor(fs)
    }

    // ---- Writing ----

    /** Lays one frame out in a byte array and flushes it; `data[lo..hi]` is its payload. */
    method WriteFrame(h: Head, data: array<byte>, lo: nat, hi: nat)
      requires lo <= hi <= data.Length && data.Length < TWO_TO_63
      modifies this`output, this`drawn
      ensures output == old(output) + Encode(Frame(h, data[lo..hi]), keys(old(drawn)))
      ensures drawn == old(drawn) + if h.masked then 1 else 0
    {
      hide Prefix, Tail, Encode, HeaderSize;
      ghost var f, key := Frame(h, data[lo..hi]), keys(drawn);
      var payloadLen := hi - lo;
      var headerSize := HeaderLength(h, payloadLen);
      var frameBytes := new byte[headerSize + payloadLen];
      var offset := FillHeader(frameBytes, h, payloadLen);
      offset := PutPayload(frameBytes, offset, h, data, lo, hi);
      assert offset == headerSize;
      EncodeParts(f, key);
      output := output + frameBytes[..];
    }

    method HeaderLength(h: Head, payloadLen: nat) returns (headerSize: nat)
      ensures headerSize == HeaderSize(h, payloadLen)
    {
      headerSize := 2;
      if payloadLen > MAX_PAYLOAD_16BIT {
        headerSize := headerSize + 8;
      } else if payloadLen > MAX_PAYLOAD_7BIT {
        headerSize := headerSize + 2;
      }
      if h.masked {
        headerSize := headerSize + 4;
      }
    }

    /** The key, and behind it the payload, masked in place; returns where the payload starts. */
    method PutMasked(frameBytes: array<byte>, at: nat, maskKey: array<byte>, data: array<byte>, lo: nat, hi: nat)
      returns (offset: nat)
      requires lo <= hi <= data.Length && frameBytes.Length == at + 4 + (hi - lo) && maskKey.Length == 4
      requires frameBytes != maskKey && frameBytes != data
      modifies frameBytes
      ensures offset == at + 4
      ensures frameBytes[..] == old(frameBytes[..at]) + (maskKey[..] + Mask(data[lo..hi], maskKey[..]))
    {
      hide Mask;
      Copy(frameBytes, at, maskKey, 0, 4);
      offset := at + 4;
      ghost var front := frameBytes[..offset];
      assert front == old(frameBytes[..at]) + maskKey[..];
      Copy(frameBytes, offset, data, lo, hi);
      assert frameBytes[..] == front + data[lo..hi];
      assert frameBytes[..offset] == front && frameBytes[offset..] == data[lo..hi];
      MaskBytes(frameBytes, offset, maskKey[..]);
      Associative(old(frameBytes[..at]), maskKey[..], Mask(data[lo..hi], maskKey[..]));
    }

    /** Everything behind the length, masked under a fresh key if need be. */
    method PutPayload(frameBytes: array<byte>, at: nat, h: Head, data: array<byte>, lo: nat, hi: nat)
      returns (offset: nat)
      requires lo <= hi <= data.Length && frameBytes != data
      requires frameBytes.Length == at + (if h.masked then 4 else 0) + (hi - lo)
      modifies frameBytes, this`drawn
      ensures offset == at + (if h.masked then 4 else 0) && drawn == old(drawn) + Drawn(h.masked)
      ensures frameBytes[..] == old(frameBytes[..at]) + Tail(Frame(h, data[lo..hi]), keys(old(drawn)))
    {
      hide Mask;
      offset := at;
      if h.masked {
        var random := keys(drawn);
        var maskKey := new byte[4](i requires 0 <= i < 4 => random[i]);
        drawn := drawn + 1;
        assert maskKey[..] == random;
        offset := PutMasked(frameBytes, offset, maskKey, data, lo, hi);
      } else {
        Copy(frameBytes, offset, data, lo, hi);
      }
    }

    method OrFlag(frameBytes: array<byte>, isSet: bool, flag: byte)
      requires frameBytes.Length > 0
      modifies frameBytes
      ensures frameBytes[0] == old(frameBytes[0]) | (if isSet then flag else 0)
      ensures frameBytes[1..] == old(frameBytes[1..])
    {
      if isSet {
        frameBytes[0] := frameBytes[0] | flag;
      }
    }

    method PutFlags(frameBytes: array<byte>, h: Head)
      requires frameBytes.Length > 0
      modifies frameBytes
      ensures frameBytes[..] == [FirstByte(h)] + old(frameBytes[1..])
    {
      frameBytes[0] := h.opcode;
      OrFlag(frameBytes, h.fin, FLAG_FIN);
      OrFlag(frameBytes, h.rsv1, FLAG_RSV1);
      OrFlag(frameBytes, h.rsv2, FLAG_RSV2);
      OrFlag(frameBytes, h.rsv3, FLAG_RSV3);
      assert frameBytes[..] == [frameBytes[0]] + frameBytes[1..];
    }

    /** The flag byte, the length and its extension; returns the offset behind them. */
    method FillHeader(frameBytes: array<byte>, h: Head, payloadLen: nat) returns (offset: nat)
      requires payloadLen < TWO_TO_63 && frameBytes.Length == HeaderSize(h, payloadLen) + payloadLen
      modifies frameBytes
      ensures offset + (if h.masked then 4 else 0) == HeaderSize(h, payloadLen)
      ensures frameBytes[..offset] == Prefix(h, payloadLen)
    {
      hide FirstByte, Bytes;
      PutFlags(frameBytes, h);
      offset := 2;
      if payloadLen > MAX_PAYLOAD_16BIT {
        frameBytes[1] := 127;
        Put(frameBytes, 2, 8, payloadLen);
        offset := 10;
      } else if payloadLen > MAX_PAYLOAD_7BIT {
        frameBytes[1] := 126;
        Put(frameBytes, 2, 2, payloadLen);
        offset := 4;
      } else {
        frameBytes[1] := payloadLen as byte;
      }
      if h.masked {
        frameBytes[1] := frameBytes[1] | FLAG_MASK;
      }
    }

    method WriteMessage(messageType: int, data: array<byte>) returns (err: Option<Error>)
      requires data.Length < TWO_TO_63
      modifies this`output, this`drawn
      ensures old(closed) ==> err == Some(ConnectionClosed) && output == old(output) && drawn == old(drawn)
      ensures !old(closed) ==> err == None && Wrote(Sending.WriteMessage(messageType, data[..]).Frames(isClient))
    {
      if closed {
        return Some(ConnectionClosed);
      }
      WriteWhole(OpcodeOf(messageType), data);
      return None;
    }

    /** A single final frame around `data`. */
    method WriteWhole(opcode: byte, data: array<byte>)
      requires data.Length < TWO_TO_63
      modifies this`output, this`drawn
      ensures Wrote([Frame(Plain(true, opcode, isClient), data[..])])
    {
      WriteFrame(Plain(true, opcode, isClient), data, 0, data.Length);
      assert data[0..data.Length] == data[..];
      EncodeOne(Frame(Plain(true, opcode, isClient), data[..]), keys, old(drawn));
    }

    method WritePing(data: array<byte>)
      requires data.Length < TWO_TO_63
      modifies this`output, this`drawn
      ensures Wrote(Sending.WritePing(data[..]).Frames(isClient))
    {
      hide EncodeAll, KeysFor;
      WriteWhole(OPCODE_PING, data);
    }

    method WritePong(data: array<byte>)
      requires data.Length < TWO_TO_63
      modifies this`output, this`drawn
      ensures Wrote(Sending.WritePong(data[..]).Frames(isClient))
    {
      hide EncodeAll, KeysFor;
      WriteWhole(OPCODE_PONG, data);
    }

    method WriteClose(code: int, reason: array<byte>)
      requires 2 + reason.Length < TWO_TO_63
      modifies this`output, this`drawn
      ensures Wrote(Sending.WriteClose(code, reason[..]).Frames(isClient))
    {
      hide Bytes, Encode, EncodeAll;
      var payload := new byte[2 + reason.Length];
      Put(payload, 0, 2, code % 0x1_0000);
      Copy(payload, 2, reason, 0, reason.Length);
      assert payload[..] == ClosePayload(code, reason[..]);
      WriteWhole(OPCODE_CLOSE, payload);
    }

    /** The fragment at offset `i`: one frame less is left to write. */
    method WriteFragment(messageType: int, data: array<byte>, fragmentSize: int, i: nat)
      requires fragmentSize > 0 && i < data.Length < TWO_TO_63
      modifies this`output, this`drawn
      ensures var now := Fragments(messageType, data[..], fragmentSize, isClient, i + fragmentSize);
              var before := Fragments(messageType, data[..], fragmentSize, isClient, i);
              && output + EncodeAll(now, keys, drawn) == old(output) + EncodeAll(before, keys, old(drawn))
              && drawn + KeysFor(now) == old(drawn) + KeysFor(before)
    {
      hide Encode, Fragments, OpcodeOf;
      var total := data.Length;
      var end := i + fragmentSize;
      if end > total {
        end := total;
      }
      var fin := end == total;
      var opcode := OpcodeOf(messageType);
      if i > 0 {
        opcode := OPCODE_CONTINUATION;
      }
      FirstFragment(messageType, data[..], fragmentSize, isClient, i);
      assert data[..][i..end] == data[i..end];
      SplitFirst(output, Fragments(messageType, data[..], fragmentSize, isClient, i), keys, drawn);
      WriteFrame(Plain(fin, opcode, isClient), data, i, end);
    }

    /** False when another fragmented write is under way. */
    method WriteFragmented(messageType: int, data: array<byte>, fragmentSize: int) returns (ok: bool)
      requires data.Length < TWO_TO_63 && (fragmentSize > 0 || data.Length == 0)
      modifies this`output, this`drawn, this`fragmentedWriteInProgress
      ensures ok == !old(fragmentedWriteInProgress) && fragmentedWriteInProgress == old(fragmentedWriteInProgress)
      ensures !ok ==> output == old(output) && drawn == old(drawn)
      ensures ok ==> Wrote(Sending.WriteFragmented(messageType, data[..], fragmentSize).Frames(isClient))
    {
      hide EncodeAll, Fragments, KeysFor;
      if fragmentedWriteInProgress {
        return false;
      }
      fragmentedWriteInProgress := true;
      var total := data.Length;
      var i := 0;
      while i < total
        invariant 0 <= i && (total > 0 ==> fragmentSize > 0)
        invariant total > 0 ==>
          && output + EncodeAll(Fragments(messageType, data[..], fragmentSize, isClient, i), keys, drawn)
             == old(output) + EncodeAll(Fragments(messageType, data[..], fragmentSize, isClient, 0), keys, old(drawn))
          && drawn + KeysFor(Fragments(messageType, data[..], fragmentSize, isClient, i))
             == old(drawn) + KeysFor(Fragments(messageType, data[..], fragmentSize, isClient, 0))
        invariant total == 0 ==> output == old(output) && drawn == old(drawn)
        decreases total - i
      {
        WriteFragment(messageType, data, fragmentSize, i);
        i := i + fragmentSize;
      }
      FragmentsEnd(messageType, data[..], fragmentSize, isClient, i);
      NoFrames(keys, drawn);
      fragmentedWriteInProgress := false;
      return true;
    }

    // ---- Reading ----

    method ReadFrame() returns (r: Result<Frame>)
      requires reader.Valid()
      modifies reader
      ensures reader.Valid()
      ensures match Decode(End(), old(reader.Remaining()))
              case Got(f, rest) => r == Ok(f) && reader.Remaining() == rest
              case Stop(e, rest) => r == Err(e) && reader.Remaining() == rest
    {
      hide DecodeHead, DecodeRest;
      var header := new byte[2];
      var err := reader.ReadFull(header);
      if err.Some? {
        return Err(err.value);
      }
      r := ReadRest(DecodeHead(header[0], header[1]), header[1] & 0x7F);
    }

    /** The frame behind its first two bytes. */
    method ReadRest(h: Head, len7: byte) returns (r: Result<Frame>)
      requires reader.Valid()
      modifies reader
      ensures reader.Valid()
      ensures match DecodeRest(End(), h, len7, old(reader.Remaining()))
              case Got(f, rest) => r == Ok(f) && reader.Remaining() == rest
              case Stop(e, rest) => r == Err(e) && reader.Remaining() == rest
    {
      hide DecodeLength, DecodeBody;
      if !ValidOpcode(h.opcode) {
        return Err(InvalidOpcode);
      }
      if isServer {
        if !h.masked {
          return Err(InvalidFrame);
        }
      } else if isClient {
        if h.masked {
          return Err(InvalidFrame);
        }
      }
      var length := ReadLength(len7);
      if length.Err? {
        return Err(length.error);
      }
      var payloadLen := length.value;
      if payloadLen > maxFrameSize {
        return Err(MessageTooLarge);
      }
      r := ReadBody(h, payloadLen);
    }

    /** The payload length, in whichever of its three forms it was sent. */
    method ReadLength(len7: byte) returns (r: Result<int>)
      requires reader.Valid()
      modifies reader
      ensures reader.Valid()
      ensures match DecodeLength(len7, old(reader.Remaining()))
              case Got(n, rest) => r == Ok(n) && reader.Remaining() == rest
              case Stop(e, rest) => r == Err(e) && reader.Remaining() == rest
    {
      var payloadLen := len7 as int;
      if payloadLen == 126 {
        var lengthBytes := new byte[2];
        var err := reader.ReadFull(lengthBytes);
        if err.Some? {
          return Err(err.value);
        }
        payloadLen := Value(lengthBytes[..]);
      } else if payloadLen == 127 {
        var lengthBytes := new byte[8];
        var err := reader.ReadFull(lengthBytes);
        if err.Some? {
          return Err(err.value);
        }
        payloadLen := ToInt64(Value(lengthBytes[..]));
      }
      return Ok(payloadLen);
    }

    /** The masking key and the payload. */
    method ReadBody(h: Head, payloadLen: int) returns (r: Result<Frame>)
      requires reader.Valid()
      modifies reader
      ensures reader.Valid()
      ensures match DecodeBody(h, payloadLen, old(reader.Remaining()))
              case Got(f, rest) => r == Ok(f) && reader.Remaining() == rest
              case Stop(e, rest) => r == Err(e) && reader.Remaining() == rest
    {
      hide Mask;
      var maskKey := new byte[4];
      if h.masked {
        var err := reader.ReadFull(maskKey);
        if err.Some? {
          return Err(err.value);
        }
      }
      if payloadLen <= 0 {
        return Ok(Frame(h, []));
      }
      var payload := new byte[payloadLen];
      var err := reader.ReadFull(payload);
      if err.Some? {
        return Err(err.value);
      }
      if h.masked {
        ghost var wire := payload[..];
        assert payload[0..] == wire;
        MaskBytes(payload, 0, maskKey[..]);
        assert payload[..] == Mask(wire, maskKey[..]);
      }
      return Ok(Frame(h, payload[..]));
    }

    method ReadMessage() returns (r: Outcome)
      requires reader.Valid()
      modifies this`messageBuffer, reader
      ensures reader.Valid()
      ensures old(closed) ==>
                r == Failed(ConnectionClosed) && messageBuffer == old(messageBuffer)
                && reader.Remaining() == old(reader.Remaining())
      ensures !old(closed) ==>
                Reading(r, reader.Remaining(), messageBuffer) == Read(End(), old(reader.Remaining()))
    {
      if closed {
        return Failed(ConnectionClosed);
      }
      messageBuffer := [];
      var messageType := 0;
      while true
        invariant reader.Valid()
        invariant Read(End(), old(reader.Remaining()))
                  == ReadLoop(End(), reader.Remaining(), messageType, messageBuffer)
        decreases |reader.Remaining()|
      {
        ghost var s := reader.Remaining();
        var next := ReadFrame();
        if next.Err? {
          return Failed(next.error);
        }
        DecodeConsumes(End(), s);
        var frame := next.value;
        if frame.head.opcode >= 0x8 {
          return Message(frame.head.opcode as int, frame.payload);
        }
        if frame.head.opcode == OPCODE_CONTINUATION {
          if messageType == 0 {
            return Failed(InvalidFrame);
          }
        } else {
          messageType := frame.head.opcode as int;
        }
        messageBuffer := messageBuffer + frame.payload;
        if |messageBuffer| > maxMessageSize {
          return Failed(MessageTooLarge);
        }
        if frame.head.fin {
          return Message(messageType, messageBuffer);
        }
      }
    }
  }

  lemma FragmentsEnd(messageType: int, data: seq<byte>, size: int, masked: bool, i: nat)
    requires i >= |data|
    ensures data != [] && size > 0 ==> Fragments(messageType, data, size, masked, i) == []
  {}

  lemma EncodeParts(f: Frame, key: Key)
    ensures Encode(f, key) == Prefix(f.head, |f.payload|) + Tail(f, key)
  {}
}
