/** Frames and their wire format, sections 5.2 and 5.3 of RFC 6455. */
module WireFormat {
  import opened BigEndian
  import opened Slices

  const FLAG_FIN: byte := 0x80
  const FLAG_RSV1: byte := 0x40
  const FLAG_RSV2: byte := 0x20
  const FLAG_RSV3: byte := 0x10
  const FLAG_MASK: byte := 0x80

  const OPCODE_CONTINUATION: byte := 0x0
  const OPCODE_TEXT: byte := 0x1
  const OPCODE_BINARY: byte := 0x2
  const OPCODE_CLOSE: byte := 0x8
  const OPCODE_PING: byte := 0x9
  const OPCODE_PONG: byte := 0xA

  const MAX_PAYLOAD_7BIT := 125
  const MAX_PAYLOAD_16BIT := 65535
  const TWO_TO_63 := 0x8000_0000_0000_0000

  datatype Head = Head(fin: bool, rsv1: bool, rsv2: bool, rsv3: bool, opcode: byte, masked: bool)

  datatype Frame = Frame(head: Head, payload: seq<byte>)

  /** What the reading end of a connection is configured to accept. */
  datatype Endpoint = Endpoint(isServer: bool, isClient: bool, maxFrameSize: int, maxMessageSize: int)

  datatype Error = EOF | UnexpectedEOF | InvalidOpcode | InvalidFrame | MessageTooLarge | ConnectionClosed

  /** A parse either yields a value or stops; both say what is left on the stream. */
  datatype Parse<+T> = Got(value: T, rest: seq<byte>) | Stop(error: Error, rest: seq<byte>) {
    predicate IsFailure() {
      Stop?
    }

    function PropagateFailure<U>(): Parse<U>
      requires Stop?
    {
      Stop(error, rest)
    }

    function Extract(): (T, seq<byte>)
      requires Got?
    {
      (value, rest)
    }
  }

  type Key = k: seq<byte> | |k| == 4 witness [0, 0, 0, 0]

  predicate ValidOpcode(opcode: byte) {
    opcode in {OPCODE_CONTINUATION, OPCODE_TEXT, OPCODE_BINARY, OPCODE_CLOSE, OPCODE_PING, OPCODE_PONG}
  }

  /** Clients must mask and servers must not; each end checks the other. */
  predicate MaskAllowed(end: Endpoint, masked: bool) {
    if end.isServer then masked else if end.isClient then !masked else true
  }

  function Mask(data: seq<byte>, key: Key): (r: seq<byte>)
    ensures |r| == |data|
  {
    seq(|data|, i requires 0 <= i < |data| => data[i] ^ key[i % 4])
  }

  lemma MaskInvolution(data: seq<byte>, key: Key)
    ensures Mask(Mask(data, key), key) == data
    ensures forall i :: 0 <= i < |data| ==> Mask(data, key)[i] == data[i] ^ key[i % 4]
  {
    forall i | 0 <= i < |data| ensures Mask(Mask(data, key), key)[i] == data[i] {
      XorTwice(data[i], key[i % 4]);
    }
  }

  lemma XorTwice(a: byte, b: byte)
    ensures (a ^ b) ^ b == a
  {}

  // ---- Encoding ----

  function FirstByte(h: Head): byte {
    h.opcode
    | (if h.fin then FLAG_FIN else 0)
    | (if h.rsv1 then FLAG_RSV1 else 0)
    | (if h.rsv2 then FLAG_RSV2 else 0)
    | (if h.rsv3 then FLAG_RSV3 else 0)
  }

  function SecondByte(h: Head, len7: byte): byte {
    len7 | (if h.masked then FLAG_MASK else 0)
  }

  /** The 7-bit length field and the extended length that follows it. */
  function LengthField(n: nat): (byte, seq<byte>) {
    if n > MAX_PAYLOAD_16BIT then (127, Bytes(n, 8))
    else if n > MAX_PAYLOAD_7BIT then (126, Bytes(n, 2))
    else (n as byte, [])
  }

  function HeaderSize(h: Head, n: nat): nat {
    2
    + (if n > MAX_PAYLOAD_16BIT then 8 else if n > MAX_PAYLOAD_7BIT then 2 else 0)
    + if h.masked then 4 else 0
  }

  function Prefix(h: Head, n: nat): seq<byte> {
    var (len7, extended) := LengthField(n);
    [FirstByte(h), SecondByte(h, len7)] + extended
  }

  /** The part of an encoded frame after its header. */
  function Tail(f: Frame, key: Key): seq<byte> {
    if f.head.masked then key + Mask(f.payload, key) else f.payload
  }

  function Encode(f: Frame, key: Key): (s: seq<byte>)
    ensures |s| == HeaderSize(f.head, |f.payload|) + |f.payload|
  {
    Prefix(f.head, |f.payload|) + Tail(f, key)
  }

  // ---- Decoding ----

  function ReadFull(s: seq<byte>, n: nat): (p: Parse<seq<byte>>)
    ensures p.Got? ==> |p.value| == n && s == p.value + p.rest
  {
    if |s| >= n then Got(s[..n], s[n..])
    else if s == [] then Stop(EOF, [])
    else Stop(UnexpectedEOF, [])
  }

  /** The 64-bit length goes through a signed integer. */
  function ToInt64(v: nat): int {
    if v < TWO_TO_63 then v else v - 2 * TWO_TO_63
  }

  function DecodeLength(len7: byte, s: seq<byte>): (p: Parse<int>) {
    if len7 == 126 then
      var (b, rest) :- ReadFull(s, 2);
      Got(Value(b), rest)
    else if len7 == 127 then
      var (b, rest) :- ReadFull(s, 8);
      Got(ToInt64(Value(b)), rest)
    else
      Got(len7 as int, s)
  }

  function DecodeHead(b0: byte, b1: byte): Head {
    Head(b0 & FLAG_FIN != 0, b0 & FLAG_RSV1 != 0, b0 & FLAG_RSV2 != 0, b0 & FLAG_RSV3 != 0,
         b0 & 0x0F, b1 & FLAG_MASK != 0)
  }

  function DecodeBody(h: Head, n: int, s: seq<byte>): (p: Parse<Frame>) {
    var (key, s1) :- if h.masked then ReadFull(s, 4) else Got([], s);
    if n <= 0 then Got(Frame(h, []), s1)
    else
      var (wire, s2) :- ReadFull(s1, n);
      Got(Frame(h, if h.masked then Mask(wire, key) else wire), s2)
  }

  function Decode(end: Endpoint, s: seq<byte>): (p: Parse<Frame>) {
    var (header, s1) :- ReadFull(s, 2);
    DecodeRest(end, DecodeHead(header[0], header[1]), header[1] & 0x7F, s1)
  }

  function DecodeRest(end: Endpoint, h: Head, len7: byte, s: seq<byte>): (p: Parse<Frame>) {
    if !ValidOpcode(h.opcode) then Stop(InvalidOpcode, s)
    else if !MaskAllowed(end, h.masked) then Stop(InvalidFrame, s)
    else
      var (n, rest) :- DecodeLength(len7, s);
      if n > end.maxFrameSize then Stop(MessageTooLarge, rest) else DecodeBody(h, n, rest)
  }

  // ---- Round trip ----

  /** The frames `end` accepts, in terms a sender can check before sending. */
  predicate Acceptable(end: Endpoint, f: Frame) {
    && ValidOpcode(f.head.opcode)
    && MaskAllowed(end, f.head.masked)
    && |f.payload| <= end.maxFrameSize
  }

  lemma HeadRoundTrip(h: Head, len7: byte)
    requires ValidOpcode(h.opcode) && len7 < 128
    ensures DecodeHead(FirstByte(h), SecondByte(h, len7)) == h
    ensures SecondByte(h, len7) & 0x7F == len7
  {
    FlagBits(h.opcode, h.fin, h.rsv1, h.rsv2, h.rsv3);
  }

  lemma FlagBits(op: byte, a: bool, b: bool, c: bool, d: bool)
    requires op & 0xF0 == 0
    ensures var x := op | (if a then 0x80 else 0) | (if b then 0x40 else 0)
                     | (if c then 0x20 else 0) | (if d then 0x10 else 0);
            x & 0x0F == op && (x & 0x80 != 0) == a && (x & 0x40 != 0) == b
            && (x & 0x20 != 0) == c && (x & 0x10 != 0) == d
  {}

  lemma LengthFieldIs7Bit(n: nat)
    ensures LengthField(n).0 < 128
  {}

  lemma LengthRoundTrip(n: nat, rest: seq<byte>)
    requires n < TWO_TO_63
    ensures DecodeLength(LengthField(n).0, LengthField(n).1 + rest) == Got(n, rest)
  {
    FieldCapacities();
    if n > MAX_PAYLOAD_16BIT {
      ValueOfBytes(n, 8);
      ReadFullExact(Bytes(n, 8), rest);
    } else if n > MAX_PAYLOAD_7BIT {
      ValueOfBytes(n, 2);
      ReadFullExact(Bytes(n, 2), rest);
    } else {
      SmallLength(n);
      assert [] + rest == rest;
    }
  }

  lemma ReadFullExact(b: seq<byte>, rest: seq<byte>)
    ensures ReadFull(b + rest, |b|) == Got(b, rest)
  {}

  lemma SmallLength(n: nat)
    requires n <= MAX_PAYLOAD_7BIT
    ensures (n as byte) as int == n && (n as byte) < 126
  {
    ByteOfInt(n);
    BelowAsInt(n as byte);
  }

  lemma BelowAsInt(b: byte)
    ensures b as int < 126 <==> b < 126
  {}

  lemma BodyRoundTrip(f: Frame, key: Key, rest: seq<byte>)
    ensures DecodeBody(f.head, |f.payload|, Tail(f, key) + rest) == Got(f, rest)
  {
    var wire := if f.head.masked then Mask(f.payload, key) else f.payload;
    if f.head.masked {
      assert key + wire + rest == key + (wire + rest);
      assert ReadFull(key + (wire + rest), 4) == Got(key, wire + rest);
      MaskInvolution(f.payload, key);
    }
    if f.payload == [] {
      assert wire + rest == rest;
    } else {
      assert ReadFull(wire + rest, |f.payload|) == Got(wire, rest);
    }
  }

  lemma DecodeEncodedHead(end: Endpoint, f: Frame, key: Key, rest: seq<byte>)
    requires |f.payload| < TWO_TO_63 && ValidOpcode(f.head.opcode)
    ensures Decode(end, Encode(f, key) + rest)
            == DecodeRest(end, f.head, LengthField(|f.payload|).0,
                          LengthField(|f.payload|).1 + (Tail(f, key) + rest))
  {
    hide FirstByte, SecondByte, LengthField, Tail, Decode, DecodeRest, DecodeHead;
    var (len7, extended) := LengthField(|f.payload|);
    var b1 := SecondByte(f.head, len7);
    assert Encode(f, key) + rest == [FirstByte(f.head), b1] + (extended + (Tail(f, key) + rest));
    DecodeTwoBytes(end, FirstByte(f.head), b1, extended + (Tail(f, key) + rest));
    LengthFieldIs7Bit(|f.payload|);
    HeadRoundTrip(f.head, len7);
  }

  lemma DecodeTwoBytes(end: Endpoint, b0: byte, b1: byte, s: seq<byte>)
    ensures Decode(end, [b0, b1] + s) == DecodeRest(end, DecodeHead(b0, b1), b1 & 0x7F, s)
  {
    ReadFullExact([b0, b1], s);
  }

  lemma DecodedIsAcceptable(end: Endpoint, s: seq<byte>)
    requires Decode(end, s).Got?
    ensures var f := Decode(end, s).value;
            ValidOpcode(f.head.opcode) && MaskAllowed(end, f.head.masked) && (f.payload != [] ==> Acceptable(end, f))
  {}

  /**
   * Reading what was written gives back the frame and leaves the tail, exactly for the
   * frames the reading end accepts. An opcode outside the six valid ones would otherwise
   * spill into the flag bits and come back as a different frame.
   */
  lemma FrameRoundTrip(end: Endpoint, f: Frame, key: Key, rest: seq<byte>)
    requires |f.payload| < TWO_TO_63
    ensures Decode(end, Encode(f, key) + rest) == Got(f, rest) <==> Acceptable(end, f)
  {
    hide Encode, Decode, DecodeLength, DecodeBody, Tail;
    if ValidOpcode(f.head.opcode) && MaskAllowed(end, f.head.masked) {
      DecodeEncodedHead(end, f, key, rest);
      LengthRoundTrip(|f.payload|, Tail(f, key) + rest);
      BodyRoundTrip(f, key, rest);
    } else if Decode(end, Encode(f, key) + rest).Got? {
      DecodedIsAcceptable(end, Encode(f, key) + rest);
    }
  }

  // ---- Section 5.7 of RFC 6455 ----

  /** The examples of the standard: an unmasked and a masked "Hello", and the two wide lengths. */
  lemma StandardExamples(payload: seq<byte>, key: Key)
    ensures var hello: seq<byte> := [0x48, 0x65, 0x6c, 0x6c, 0x6f];
            && Encode(Frame(Head(true, false, false, false, OPCODE_TEXT, false), hello), key)
               == [0x81, 0x05, 0x48, 0x65, 0x6c, 0x6c, 0x6f]
            && Encode(Frame(Head(true, false, false, false, OPCODE_TEXT, true), hello), [0x37, 0xfa, 0x21, 0x3d])
               == [0x81, 0x85, 0x37, 0xfa, 0x21, 0x3d, 0x7f, 0x9f, 0x4d, 0x51, 0x58]
    ensures var binary := Frame(Head(true, false, false, false, OPCODE_BINARY, false), payload);
            && (|payload| == 256 ==> Encode(binary, key) == [0x82, 0x7E, 0x01, 0x00] + payload)
            && (|payload| == 65536 ==>
                  Encode(binary, key) == [0x82, 0x7F, 0x00, 0x00, 0x00, 0x00, 0x00, 0x01, 0x00, 0x00] + payload)
  {
    MaskedHello();
    WideLengths();
  }

  lemma MaskedHello()
    ensures Mask([0x48, 0x65, 0x6c, 0x6c, 0x6f], [0x37, 0xfa, 0x21, 0x3d]) == [0x7f, 0x9f, 0x4d, 0x51, 0x58]
  {}

  lemma WideLengths()
    ensures Bytes(256, 2) == [0x01, 0x00]
    ensures Bytes(65536, 8) == [0x00, 0x00, 0x00, 0x00, 0x00, 0x01, 0x00, 0x00]
  {}

  // ---- Shortest encoding ----

  lemma HeadBytesRoundTrip(b0: byte, b1: byte)
    ensures FirstByte(DecodeHead(b0, b1)) == b0
    ensures SecondByte(DecodeHead(b0, b1), b1 & 0x7F) == b1
    ensures b1 & 0x7F < 128
  {}

  /** How many bytes the length field took, and when they are the ones `LengthField` gives. */
  lemma DecodeLengthUses(len7: byte, s: seq<byte>)
    requires len7 < 128 && DecodeLength(len7, s).Got?
    ensures var p := DecodeLength(len7, s);
            var used := |s| - |p.rest|;
            var n := if p.value > 0 then p.value else 0;
            && used >= |LengthField(n).1|
            && used <= |s| && s[used..] == p.rest
            && (used == |LengthField(n).1| ==> LengthField(n) == (len7, s[..used]))
  {
    FieldCapacities();
    if len7 == 126 {
      BytesOfValue(s[..2]);
    } else if len7 == 127 {
      BytesOfValue(s[..8]);
    } else {
      SmallByte(len7);
    }
  }

  lemma SmallByte(b: byte)
    requires b < 126
    ensures 0 <= b as int <= 125 && (b as int) as byte == b
  {}

  lemma DecodeBodyUses(h: Head, n: int, s: seq<byte>) returns (key: Key)
    requires DecodeBody(h, n, s).Got?
    ensures var p := DecodeBody(h, n, s);
            && p.value.head == h && |p.value.payload| == (if n > 0 then n else 0)
            && s == Tail(p.value, key) + p.rest
  {
    key := if h.masked then s[..4] else [0, 0, 0, 0];
    var s1 := if h.masked then s[4..] else s;
    if n > 0 {
      MaskInvolution(s1[..n], key);
      assert s1 == s1[..n] + s1[n..];
    }
  }

  lemma DecodeRestSplits(end: Endpoint, h: Head, len7: byte, s: seq<byte>)
    returns (extended: seq<byte>, key: Key)
    requires len7 < 128 && DecodeRest(end, h, len7, s).Got?
    ensures var Got(f, rest) := DecodeRest(end, h, len7, s);
            var field := LengthField(|f.payload|);
            && f.head == h
            && s == extended + (Tail(f, key) + rest)
            && |extended| >= |field.1|
            && (|extended| == |field.1| ==> field == (len7, extended))
  {
    DecodeLengthUses(len7, s);
    var Got(n, s2) := DecodeLength(len7, s);
    key := DecodeBodyUses(h, n, s2);
    extended := s[..|s| - |s2|];
    assert s == extended + s2;
  }

  /** A decoded string is a header, a length at least as long as needed, a tail and the rest. */
  lemma DecodeSplits(end: Endpoint, s: seq<byte>) returns (len7: byte, extended: seq<byte>, key: Key)
    requires Decode(end, s).Got?
    ensures var Got(f, rest) := Decode(end, s);
            var field := LengthField(|f.payload|);
            && s == [FirstByte(f.head), SecondByte(f.head, len7)] + extended + Tail(f, key) + rest
            && |extended| >= |field.1|
            && (|extended| == |field.1| ==> field == (len7, extended))
  {
    hide FirstByte, SecondByte, LengthField, Tail, DecodeRest, DecodeHead;
    var b0, b1, s1 := s[0], s[1], s[2..];
    var h := DecodeHead(b0, b1);
    len7 := b1 & 0x7F;
    assert s == [b0, b1] + s1;
    DecodeTwoBytes(end, b0, b1, s1);
    HeadBytesRoundTrip(b0, b1);
    extended, key := DecodeRestSplits(end, h, len7, s1);
    var Got(f, rest) := Decode(end, s);
    assert s == [b0, b1] + extended + Tail(f, key) + rest;
  }

  /**
   * No byte string that decodes to a frame is shorter than the frame's encoding, whatever
   * length form it uses; and one that is as short is an encoding of that frame.
   */
  lemma ShortestEncoding(end: Endpoint, s: seq<byte>, k: Key)
    requires Decode(end, s).Got?
    ensures var Got(f, rest) := Decode(end, s);
            && |Encode(f, k)| + |rest| <= |s|
            && (|Encode(f, k)| + |rest| == |s| <==> exists key: Key :: s == Encode(f, key) + rest)
  {
    var Got(f, rest) := Decode(end, s);
    var len7, extended, key := DecodeSplits(end, s);
    EncodedLength(f, k);
    EncodedLength(f, key);
    if |Encode(f, k)| + |rest| == |s| {
      assert s == Encode(f, key) + rest;
    }
  }

  lemma EncodedLength(f: Frame, key: Key)
    ensures |Encode(f, key)| == 2 + |LengthField(|f.payload|).1| + |Tail(f, key)|
    ensures |Tail(f, key)| == |f.payload| + if f.head.masked then 4 else 0
  {}

  lemma DecodeRestConsumes(end: Endpoint, h: Head, len7: byte, s: seq<byte>)
    ensures var p := DecodeRest(end, h, len7, s);
            && |p.rest| <= |s|
            && (p.Got? ==> ValidOpcode(p.value.head.opcode))
            && (p.Got? ==> |p.value.payload| <= (if end.maxFrameSize > 0 then end.maxFrameSize else 0))
  {
    hide ValidOpcode, Mask, Value;
  }

  /** A decode takes bytes off the stream if there are any, and respects the frame limit. */
  lemma DecodeConsumes(end: Endpoint, s: seq<byte>)
    ensures var p := Decode(end, s);
            && |p.rest| <= |s| && (s != [] ==> |p.rest| < |s|)
            && (p.Got? ==> s != [] && ValidOpcode(p.value.head.opcode))
            && (p.Got? ==> |p.value.payload| <= (if end.maxFrameSize > 0 then end.maxFrameSize else 0))
  {
    hide DecodeRest, DecodeHead, ValidOpcode;
    if |s| >= 2 {
      DecodeRestConsumes(end, DecodeHead(s[..2][0], s[..2][1]), s[..2][1] & 0x7F, s[2..]);
    }
  }
}
