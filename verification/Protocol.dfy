/**
 * The wire in literal terms: which frames each role reads and which error it gives for the others,
 * what a cut-off frame gives, and the very bytes that each call writes.
 */
module Protocol {
  import opened BigEndian
  import opened Messages
  import opened Slices
  import opened WireFormat

  // ---- What each role reads, section 5.1 of RFC 6455 ----

  /**
   * A written frame is read back if and only if its opcode is one of the six, its payload is within
   * the limit, and it is masked for a server, unmasked for a client, and either for an end that is
   * neither.
   */
  lemma FrameAccepted(end: Endpoint, f: Frame, key: Key, rest: seq<byte>)
    requires |f.payload| < TWO_TO_63
    ensures var back := Decode(end, Encode(f, key) + rest) == Got(f, rest);
            var fine := f.head.opcode in {0x0, 0x1, 0x2, 0x8, 0x9, 0xA} && |f.payload| <= end.maxFrameSize;
            && (end.isServer ==> (back <==> fine && f.head.masked))
            && (!end.isServer && end.isClient ==> (back <==> fine && !f.head.masked))
            && (!end.isServer && !end.isClient ==> (back <==> fine))
  {
    hide Encode, Decode;
    FrameRoundTrip(end, f, key, rest);
  }

  /** The errors of any two header bytes, whatever follows: the opcode is looked at before the mask bit. */
  lemma HeaderErrors(end: Endpoint, b0: byte, b1: byte, s: seq<byte>)
    ensures var p := Decode(end, [b0, b1] + s);
            var masked := b1 & 0x80 == 0x80;
            if b0 & 0x0F !in {0x0, 0x1, 0x2, 0x8, 0x9, 0xA} then p == Stop(InvalidOpcode, s)
            else if (end.isServer && !masked) || (!end.isServer && end.isClient && masked) then
              p == Stop(InvalidFrame, s)
            else p.Stop? ==> p.error in {EOF, UnexpectedEOF, MessageTooLarge}
  {
    hide Decode, Value, Mask;
    DecodeTwoBytes(end, b0, b1, s);
    TopBit(b1);
  }

  lemma TopBit(b: byte)
    ensures b & 0x80 == 0x80 <==> b & 0x80 != 0
  {}

  /** A frame with a valid opcode that is masked and should not be, or the other way round, is refused. */
  lemma FrameRefused(end: Endpoint, f: Frame, key: Key, rest: seq<byte>)
    requires f.head.opcode in {0x0, 0x1, 0x2, 0x8, 0x9, 0xA}
    requires if end.isServer then !f.head.masked else end.isClient && f.head.masked
    ensures Decode(end, Encode(f, key) + rest) == Stop(InvalidFrame, (Encode(f, key) + rest)[2..])
  {
    hide FirstByte, SecondByte, LengthField, Tail, Decode, DecodeLength, DecodeBody, DecodeHead;
    var (len7, extended) := LengthField(|f.payload|);
    var b0, b1 := FirstByte(f.head), SecondByte(f.head, len7);
    var s := extended + (Tail(f, key) + rest);
    assert Encode(f, key) + rest == [b0, b1] + s;
    DecodeTwoBytes(end, b0, b1, s);
    LengthFieldIs7Bit(|f.payload|);
    HeadRoundTrip(f.head, len7);
  }

  /** The bits of the two header bytes, section 5.2. */
  lemma HeaderLayout(h: Head, len7: byte)
    requires h.opcode < 0x10 && len7 < 0x80
    ensures FirstByte(h) == (if h.fin then 0x80 else 0) + (if h.rsv1 then 0x40 else 0)
                            + (if h.rsv2 then 0x20 else 0) + (if h.rsv3 then 0x10 else 0) + h.opcode
    ensures SecondByte(h, len7) == (if h.masked then 0x80 else 0) + len7
  {}

  // ---- Lengths with the top bit set ----

  lemma {:induction false} ValueOfFirst(b: seq<byte>)
    requires b != []
    ensures Value(b) == b[0] as nat * Capacity(|b| - 1) + Value(b[1..])
    decreases |b|
  {
    if |b| == 1 {
      ValueOfOne(b);
    } else {
      ValueOfLastByte(b);
      hide Value, Capacity;
      var front := b[..|b| - 1];
      ValueOfFirst(front);
      AppendByte(b[0] as nat, Capacity(|b| - 2), Value(front[1..]), b[|b| - 1] as nat);
    }
  }

  lemma ValueOfOne(b: seq<byte>)
    requires |b| == 1
    ensures Value(b) == b[0] as nat && Value(b[1..]) == 0 && Capacity(0) == 1
  {}

  /** The last byte of a string, and of the string without its first byte. */
  lemma ValueOfLastByte(b: seq<byte>)
    requires |b| > 1
    ensures var front, last := b[..|b| - 1], b[|b| - 1] as nat;
            && Value(b) == Value(front) * 256 + last
            && Value(b[1..]) == Value(front[1..]) * 256 + last
            && Capacity(|b| - 1) == 256 * Capacity(|b| - 2)
  {
    assert b[1..][..|b| - 2] == b[..|b| - 1][1..] && b[1..][|b| - 2] == b[|b| - 1];
  }

  lemma AppendByte(x: nat, c: nat, v: nat, last: nat)
    ensures (x * c + v) * 256 + last == x * (256 * c) + (v * 256 + last)
  {
    assert (x * c) * 256 == x * (256 * c);
  }

  /** A 64-bit length is negative for the reader exactly when its first byte has the top bit set. */
  lemma SignOfLength(b: seq<byte>)
    requires |b| == 8
    ensures b[0] as int >= 0x80 <==> Value(b) >= TWO_TO_63
  {
    FieldCapacities();
    assert Capacity(8) == 256 * Capacity(7);
    hide Value, Capacity;
    ValueOfFirst(b);
    LeadingByte(b[0] as nat, Value(b[1..]));
  }

  lemma LeadingByte(x: nat, v: nat)
    requires v < 0x100_0000_0000_0000
    ensures x * 0x100_0000_0000_0000 + v >= TWO_TO_63 <==> x >= 0x80
  {}

  /**
   * An eight-byte length whose top bit is set is read as a negative number: it passes the size
   * check, and the frame is given an empty payload, once its key has been read if it has one.
   */
  lemma NegativeLength(end: Endpoint, b0: byte, b1: byte, length: seq<byte>, s: seq<byte>)
    requires b0 & 0x0F in {0x0, 0x1, 0x2, 0x8, 0x9, 0xA} && b1 & 0x7F == 0x7F
    requires if end.isServer then b1 & 0x80 != 0 else end.isClient ==> b1 & 0x80 == 0
    requires |length| == 8 && length[0] as int >= 0x80 && end.maxFrameSize >= 0
    ensures var p := Decode(end, [b0, b1] + (length + s));
            if b1 & 0x80 == 0 then p == Got(Frame(DecodeHead(b0, b1), []), s)
            else if |s| >= 4 then p == Got(Frame(DecodeHead(b0, b1), []), s[4..])
            else p == Stop(if s == [] then EOF else UnexpectedEOF, [])
  {
    hide Decode, Value, Mask;
    DecodeTwoBytes(end, b0, b1, length + s);
    SignOfLength(length);
    ReadFullExact(length, s);
    assert Value(length) < 2 * TWO_TO_63 by {
      FieldCapacities();
    }
  }

  // ---- A frame that is cut off ----

  lemma CutBody(f: Frame, key: Key, c: nat)
    requires c < |Tail(f, key)|
    ensures DecodeBody(f.head, |f.payload|, Tail(f, key)[..c])
            == Stop(if c == 0 || (f.head.masked && c == 4) then EOF else UnexpectedEOF, [])
  {
    if f.head.masked && c >= 4 {
      assert Tail(f, key)[..c][..4] == key && Tail(f, key)[..c][4..] == Mask(f.payload, key)[..c - 4];
    }
  }

  lemma CutLength(n: nat, c: nat)
    requires c < |LengthField(n).1|
    ensures DecodeLength(LengthField(n).0, LengthField(n).1[..c]) == Stop(if c == 0 then EOF else UnexpectedEOF, [])
  {
    hide Bytes, Value;
  }

  /**
   * Whatever proper prefix of an acceptable frame arrives, the reader reports that the input ended;
   * and plainly EOF, as if no frame had begun, if and only if the cut is between two fields.
   */
  lemma CutFrame(end: Endpoint, f: Frame, key: Key, c: nat)
    requires Acceptable(end, f) && |f.payload| < TWO_TO_63 && c < |Encode(f, key)|
    ensures var n := |f.payload|;
            var keyAt := 2 + if n < 126 then 0 else if n < 65536 then 2 else 8;
            var payloadAt := keyAt + if f.head.masked then 4 else 0;
            Decode(end, Encode(f, key)[..c])
            == Stop(if c in {0, 2, keyAt, payloadAt} then EOF else UnexpectedEOF, [])
  {
    hide Encode, Decode, DecodeRest, LengthField, Tail;
    EncodedLength(f, key);
    ExtendedSize(|f.payload|);
    if c < 2 {
      CutHeader(end, Encode(f, key)[..c]);
    } else {
      CutBehindHeader(end, f, key, c - 2);
      CutRest(end, f, key, c - 2);
    }
  }

  lemma CutBehindHeader(end: Endpoint, f: Frame, key: Key, c: nat)
    requires ValidOpcode(f.head.opcode) && 2 + c <= |Encode(f, key)|
    ensures var (len7, extended) := LengthField(|f.payload|);
            c <= |extended + Tail(f, key)|
            && Decode(end, Encode(f, key)[..2 + c]) == DecodeRest(end, f.head, len7, (extended + Tail(f, key))[..c])
  {
    hide Decode, DecodeRest, LengthField, FirstByte, SecondByte, Tail, DecodeHead;
    var (len7, extended) := LengthField(|f.payload|);
    var b0, b1, s := FirstByte(f.head), SecondByte(f.head, len7), (extended + Tail(f, key))[..c];
    assert Encode(f, key) == [b0, b1] + (extended + Tail(f, key));
    assert Encode(f, key)[..2 + c] == [b0, b1] + s;
    LengthFieldIs7Bit(|f.payload|);
    HeadRoundTrip(f.head, len7);
    DecodeTwoBytes(end, b0, b1, s);
  }

  lemma CutRest(end: Endpoint, f: Frame, key: Key, c: nat)
    requires Acceptable(end, f) && |f.payload| < TWO_TO_63
    requires var (_, extended) := LengthField(|f.payload|); c < |extended + Tail(f, key)|
    ensures var (len7, extended) := LengthField(|f.payload|);
            var atBoundary := c in {0, |extended|, |extended| + if f.head.masked then 4 else 0};
            DecodeRest(end, f.head, len7, (extended + Tail(f, key))[..c])
            == Stop(if atBoundary then EOF else UnexpectedEOF, [])
  {
    hide DecodeLength, DecodeBody, LengthField, Tail, Mask, ValidOpcode;
    var (len7, extended) := LengthField(|f.payload|);
    var s := (extended + Tail(f, key))[..c];
    if c < |extended| {
      CutLength(|f.payload|, c);
      assert s == extended[..c];
    } else {
      var part := Tail(f, key)[..c - |extended|];
      CutBody(f, key, c - |extended|);
      LengthRoundTrip(|f.payload|, part);
      assert s == extended + part;
    }
  }

  lemma CutHeader(end: Endpoint, s: seq<byte>)
    requires |s| < 2
    ensures Decode(end, s) == Stop(if s == [] then EOF else UnexpectedEOF, [])
  {}

  lemma ExtendedSize(n: nat)
    ensures |LengthField(n).1| == if n < 126 then 0 else if n < 65536 then 2 else 8
  {}

  // ---- What each call writes ----

  /** No extension bits, and masked as the sending end masks. */
  lemma HeadsArePlain(m: Sending, masked: bool, j: nat)
    requires m.Callable() && j < |m.Frames(masked)|
    ensures var h := m.Frames(masked)[j].head;
            !h.rsv1 && !h.rsv2 && !h.rsv3 && h.masked == masked && h.fin == (j == |m.Frames(masked)| - 1)
  {
    if m.WriteFragmented? {
      hide Fragments;
      FragmentShapeFrom(m.messageType, m.data, m.fragmentSize, masked, 0);
    }
  }

  /** The one frame of a whole write; a message type is cut to a byte. */
  lemma MessageFrame(t: int, data: seq<byte>, masked: bool)
    requires |data| < TWO_TO_63
    ensures var frames := WriteMessage(t, data).Frames(masked);
            |frames| == 1 && frames[0].head.opcode as int == t % 256 && frames[0].payload == data
  {
    ByteOfInt(t % 256);
  }

  /** The opcodes of a fragmented write: the message type's on the first frame, 0 on all others. */
  lemma FragmentOpcodes(t: int, data: seq<byte>, size: int, masked: bool, j: nat)
    requires |data| < TWO_TO_63 && size > 0 && j < |WriteFragmented(t, data, size).Frames(masked)|
    ensures WriteFragmented(t, data, size).Frames(masked)[j].head.opcode as int == if j == 0 then t % 256 else 0
  {
    hide Fragments;
    ByteOfInt(t % 256);
    FragmentShapeFrom(t, data, size, masked, 0);
  }

  /** The one frame of each control message. */
  lemma ControlFrames(data: seq<byte>, code: int, masked: bool)
    requires |data| + 2 < TWO_TO_63
    ensures WritePing(data).Frames(masked) == [Frame(Head(true, false, false, false, 0x9, masked), data)]
    ensures WritePong(data).Frames(masked) == [Frame(Head(true, false, false, false, 0xA, masked), data)]
    ensures var frames := WriteClose(code, data).Frames(masked);
            && |frames| == 1 && frames[0].head == Head(true, false, false, false, 0x8, masked)
            && |frames[0].payload| == 2 + |data| && frames[0].payload[2..] == data
            && frames[0].payload[0] as int == code / 256 % 256 && frames[0].payload[1] as int == code % 256
  {
    hide ClosePayload, OpcodeOf;
    ControlOpcodes();
    ClosePayloadBytes(code, data);
  }

  lemma ControlOpcodes()
    ensures OpcodeOf(8) == 0x8 && OpcodeOf(9) == 0x9 && OpcodeOf(10) == 0xA
  {
    ByteRange(0x8);
    ByteRange(0x9);
    ByteRange(0xA);
  }

  lemma ClosePayloadBytes(code: int, reason: seq<byte>)
    ensures var p := ClosePayload(code, reason);
            && |p| == 2 + |reason| && p[2..] == reason
            && p[0] as int == code / 256 % 256 && p[1] as int == code % 256
  {
    var n := code % 0x1_0000;
    TwoBytes(n);
    hide Bytes;
    ByteOfInt(n % 256);
    ByteOfInt(n / 256 % 256);
    LowBytes(code);
  }

  lemma TwoBytes(n: nat)
    ensures Bytes(n, 2) == [(n / 256 % 256) as byte, (n % 256) as byte]
  {
    assert Bytes(n / 256, 1) == Bytes(n / 256 / 256, 0) + [(n / 256 % 256) as byte];
  }

  lemma LowBytes(code: int)
    ensures code % 0x1_0000 % 256 == code % 256 && code % 0x1_0000 / 256 % 256 == code / 256 % 256
  {}

  /** The bytes of a text message, unmasked and masked, as section 5.7 of RFC 6455 gives them. */
  lemma StandardBytes(keys: KeySource, k: nat)
    ensures var hello: seq<byte> := [0x48, 0x65, 0x6c, 0x6c, 0x6f];
            && EncodeAll(WriteMessage(1, hello).Frames(false), keys, k)
               == [0x81, 0x05, 0x48, 0x65, 0x6c, 0x6c, 0x6f]
            && (keys(k) == [0x37, 0xfa, 0x21, 0x3d] ==>
                  EncodeAll(WriteMessage(1, hello).Frames(true), keys, k)
                  == [0x81, 0x85, 0x37, 0xfa, 0x21, 0x3d, 0x7f, 0x9f, 0x4d, 0x51, 0x58])
  {
    hide EncodeAll, Encode, Mask, Sending.Frames;
    var hello: seq<byte> := [0x48, 0x65, 0x6c, 0x6c, 0x6f];
    StandardExamples([], keys(k));
    TextFrame(hello, false);
    TextFrame(hello, true);
    EncodeOne(Frame(Head(true, false, false, false, OPCODE_TEXT, false), hello), keys, k);
    EncodeOne(Frame(Head(true, false, false, false, OPCODE_TEXT, true), hello), keys, k);
  }

  lemma TextFrame(data: seq<byte>, masked: bool)
    requires |data| < TWO_TO_63
    ensures WriteMessage(1, data).Frames(masked)
            == [Frame(Head(true, false, false, false, OPCODE_TEXT, masked), data)]
  {}

  lemma ControlBytes(keys: KeySource, k: nat)
    ensures EncodeAll(WritePing([]).Frames(false), keys, k) == [0x89, 0x00]
    ensures EncodeAll(WritePong([]).Frames(false), keys, k) == [0x8A, 0x00]
    ensures EncodeAll(WriteClose(1000, []).Frames(false), keys, k) == [0x88, 0x02] + ClosePayload(1000, [])
  {
    hide EncodeAll, Encode, OpcodeOf, ClosePayload, Bytes;
    ControlFrames([], 1000, false);
    EncodeOne(WritePing([]).Frames(false)[0], keys, k);
    EncodeOne(WritePong([]).Frames(false)[0], keys, k);
    EncodeOne(WriteClose(1000, []).Frames(false)[0], keys, k);
    ControlEncoding(0x9, 0x00, [], keys(k));
    ControlEncoding(0xA, 0x00, [], keys(k));
    ControlEncoding(0x8, 0x02, ClosePayload(1000, []), keys(k));
  }

  lemma ControlEncoding(opcode: byte, len7: byte, payload: seq<byte>, key: Key)
    requires |payload| == len7 as int && |payload| <= 125
    ensures Encode(Frame(Head(true, false, false, false, opcode, false), payload), key)
            == [opcode | 0x80, len7] + payload
  {
    ByteRange(len7);
    FinBit(opcode, len7);
  }

  lemma FinBit(opcode: byte, len7: byte)
    ensures opcode | 0x80 | 0 | 0 | 0 == opcode | 0x80 && len7 | 0 == len7
  {}

  /** Every masked frame has a key of its own, the next one; unmasked frames use none. */
  lemma KeysAreFresh(fs: seq<Frame>, masked: bool, keys: KeySource, k: nat, j: nat)
    requires j < |fs| && forall i :: 0 <= i < |fs| ==> fs[i].head.masked == masked
    ensures EncodeAll(fs[..j + 1], keys, k)
            == EncodeAll(fs[..j], keys, k) + Encode(fs[j], keys(if masked then k + j else k))
    ensures KeysFor(fs) == if masked then |fs| else 0
  {
    hide Encode, EncodeAll;
    KeysCounted(fs, masked);
    KeysCounted(fs[..j], masked);
    assert fs[..j + 1] == fs[..j] + [fs[j]];
    EncodeAllAppend(fs[..j], [fs[j]], keys, k);
    EncodeOne(fs[j], keys, k + KeysFor(fs[..j]));
  }

  lemma {:induction false} KeysCounted(fs: seq<Frame>, masked: bool)
    requires forall i :: 0 <= i < |fs| ==> fs[i].head.masked == masked
    ensures KeysFor(fs) == if masked then |fs| else 0
  {
    if fs != [] {
      KeysCounted(fs[1..], masked);
    }
  }

  // ---- Whole streams, by role ----

  /** What a client sends is what a server is given, if and only if it fits. */
  lemma ClientToServer(end: Endpoint, ms: seq<Sending>, keys: KeySource, k: nat, rest: seq<byte>)
    requires AllWellFormed(ms) && end.isServer
    ensures ReadMany(end, EncodeAll(FramesOf(ms, true), keys, k) + rest, |ms|) == (Deliveries(ms), rest)
            <==> AllFit(end, ms)
  {
    hide EncodeAll, FramesOf, ReadMany, AllFit;
    StreamRoundTrip(end, ms, true, keys, k, rest);
  }

  /** What a server sends is what a client is given, if and only if it fits. */
  lemma ServerToClient(end: Endpoint, ms: seq<Sending>, keys: KeySource, k: nat, rest: seq<byte>)
    requires AllWellFormed(ms) && !end.isServer && end.isClient
    ensures ReadMany(end, EncodeAll(FramesOf(ms, false), keys, k) + rest, |ms|) == (Deliveries(ms), rest)
            <==> AllFit(end, ms)
  {
    hide EncodeAll, FramesOf, ReadMany, AllFit;
    StreamRoundTrip(end, ms, false, keys, k, rest);
  }

  /** Between two clients or two servers the first message is refused, whatever it is. */
  lemma SameRolesRefuse(end: Endpoint, m: Sending, masked: bool, keys: KeySource, k: nat, rest: seq<byte>)
    requires m.WellFormed() && (if end.isServer then !masked else end.isClient && masked)
    ensures Read(end, EncodeAll(m.Frames(masked), keys, k) + rest).outcome == Failed(InvalidFrame)
  {
    hide Encode, Decode, EncodeAll, OpcodeOf, Fragments;
    var fs := m.Frames(masked);
    OpcodeOfData(m.Type());
    if m.WriteFragmented? {
      FirstFragment(m.messageType, m.data, m.fragmentSize, masked, 0);
    }
    SplitFirst([], fs, keys, k);
    var others := EncodeAll(fs[1..], keys, k + Drawn(masked));
    Associative(Encode(fs[0], keys(k)), others, rest);
    FrameRefused(end, fs[0], keys(k), others + rest);
  }
}
