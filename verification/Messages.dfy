/** Message assembly and fragmentation, sections 5.4 and 5.5 of RFC 6455. */
module Messages {
  import opened BigEndian
  import opened Slices
  import opened WireFormat

  /** What one call of ReadMessage gives its caller. */
  datatype Outcome = Message(messageType: int, data: seq<byte>) | Failed(error: Error)

  /** The outcome, the stream left over, and the message buffer the call leaves behind. */
  datatype Reading = Reading(outcome: Outcome, rest: seq<byte>, buffer: seq<byte>)

  /** The effect of one frame on a partly read message. */
  datatype Effect = Return(outcome: Outcome, buffer: seq<byte>) | Continue(messageType: int, buffer: seq<byte>)

  function Accept(end: Endpoint, messageType: int, buffer: seq<byte>, f: Frame): Effect {
    if f.head.opcode >= 0x8 then
      Return(Message(f.head.opcode as int, f.payload), buffer)
    else if f.head.opcode == OPCODE_CONTINUATION && messageType == 0 then
      Return(Failed(InvalidFrame), buffer)
    else
      var t := if f.head.opcode == OPCODE_CONTINUATION then messageType else f.head.opcode as int;
      var b := buffer + f.payload;
      if |b| > end.maxMessageSize then Return(Failed(MessageTooLarge), b)
      else if f.head.fin then Return(Message(t, b), b)
      else Continue(t, b)
  }

  /** Reads frames off `s` until one of them completes the call. */
  function ReadLoop(end: Endpoint, s: seq<byte>, messageType: int, buffer: seq<byte>): Reading
    decreases |s|
  {
    match Decode(end, s)
    case Stop(error, rest) => Reading(Failed(error), rest, buffer)
    case Got(f, rest) =>
      match Accept(end, messageType, buffer, f)
      case Return(outcome, b) => Reading(outcome, rest, b)
      case Continue(t, b) => DecodeConsumes(end, s); ReadLoop(end, rest, t, b)
  }

  /** ReadMessage on an open connection: the buffer and the type start out empty. */
  function Read(end: Endpoint, s: seq<byte>): Reading {
    ReadLoop(end, s, 0, [])
  }

  // ---- Arbitrary input: the loop is a fold over the decoded frames, within limits ----

  /** All frames up to the first failure, and that failure. */
  function DecodeAll(end: Endpoint, s: seq<byte>): (seq<Frame>, Error)
    decreases |s|
  {
    match Decode(end, s)
    case Stop(error, _) => ([], error)
    case Got(f, rest) =>
      DecodeConsumes(end, s);
      var (fs, error) := DecodeAll(end, rest);
      ([f] + fs, error)
  }

  /** The state of a call after a list of frames: finished, or still assembling. */
  function Fold(end: Endpoint, e: Effect, fs: seq<Frame>): Effect
    decreases fs
  {
    if fs == [] || e.Return? then e
    else Fold(end, Accept(end, e.messageType, e.buffer, fs[0]), fs[1..])
  }

  /** How many decodes a call makes: up to the frame that ends it, or to the decode that fails. */
  function DecodesUsed(end: Endpoint, e: Effect, fs: seq<Frame>): nat
    decreases fs
  {
    if e.Return? then 0
    else if fs == [] then 1
    else 1 + DecodesUsed(end, Accept(end, e.messageType, e.buffer, fs[0]), fs[1..])
  }

  /** The stream after `n` decodes. */
  function Skip(end: Endpoint, s: seq<byte>, n: nat): seq<byte>
    decreases n
  {
    if n == 0 then s else Skip(end, Decode(end, s).rest, n - 1)
  }

  lemma {:induction false} ReadLoopIsFold(end: Endpoint, s: seq<byte>, messageType: int, buffer: seq<byte>)
    ensures var (fs, error) := DecodeAll(end, s);
            var start := Continue(messageType, buffer);
            var e := Fold(end, start, fs);
            ReadLoop(end, s, messageType, buffer)
            == Reading(if e.Return? then e.outcome else Failed(error),
                       Skip(end, s, DecodesUsed(end, start, fs)), e.buffer)
    decreases |s|
  {
    hide Decode;
    var p := Decode(end, s);
    if p.Got? {
      DecodeConsumes(end, s);
      var (fs, error) := DecodeAll(end, p.rest);
      assert ([p.value] + fs)[0] == p.value && ([p.value] + fs)[1..] == fs;
      var e := Accept(end, messageType, buffer, p.value);
      if e.Continue? {
        ReadLoopIsFold(end, p.rest, e.messageType, e.buffer);
      }
    }
  }

  function AtLeast0(n: int): nat {
    if n > 0 then n else 0
  }

  /**
   * Whatever bytes arrive: the call uses up at least one of them unless there are none, a
   * data message fits the message limit, any message but a control frame was assembled in the
   * buffer, and the buffer stays within one frame of the message limit.
   */
  lemma {:induction false} ReadLoopWithinLimits(end: Endpoint, s: seq<byte>, messageType: int, buffer: seq<byte>)
    requires 0 <= messageType < 8 && |buffer| <= AtLeast0(end.maxMessageSize)
    ensures var r := ReadLoop(end, s, messageType, buffer);
            && |r.rest| <= |s| && (s != [] ==> |r.rest| < |s|)
            && |r.buffer| <= AtLeast0(end.maxMessageSize) + AtLeast0(end.maxFrameSize)
            && (r.outcome.Message? && r.outcome.messageType < 8 ==>
                  r.outcome.data == r.buffer && |r.buffer| <= end.maxMessageSize)
            && (r.outcome.Message? && r.outcome.messageType >= 8 ==>
                  |r.outcome.data| <= AtLeast0(end.maxFrameSize))
    decreases |s|
  {
    hide Decode;
    var p := Decode(end, s);
    DecodeConsumes(end, s);
    if p.Got? {
      OpcodeAsInt(p.value.head.opcode);
      var e := Accept(end, messageType, buffer, p.value);
      if e.Continue? {
        ReadLoopWithinLimits(end, p.rest, e.messageType, e.buffer);
      }
    }
  }

  lemma OpcodeAsInt(op: byte)
    ensures (op as int >= 8) == (op >= 0x8)
    ensures ValidOpcode(op) && op < 0x8 ==> 0 <= op as int < 8
  {}

  // ---- Sending ----

  /** The conversion of a message type to an opcode byte. */
  function OpcodeOf(messageType: int): byte {
    (messageType % 256) as byte
  }

  function Plain(fin: bool, opcode: byte, masked: bool): Head {
    Head(fin, false, false, false, opcode, masked)
  }

  function Whole(messageType: int, data: seq<byte>, masked: bool): Frame {
    Frame(Plain(true, OpcodeOf(messageType), masked), data)
  }

  function Min(a: int, b: int): int {
    if a < b then a else b
  }

  /** The frames WriteFragmented emits from offset `i` on. */
  function Fragments(messageType: int, data: seq<byte>, size: int, masked: bool, i: nat): (fs: seq<Frame>)
    requires size > 0
    decreases |data| - i
  {
    if i >= |data| then []
    else
      var stop := Min(i + size, |data|);
      var opcode := if i > 0 then OPCODE_CONTINUATION else OpcodeOf(messageType);
      [Frame(Plain(stop == |data|, opcode, masked), data[i..stop])]
      + Fragments(messageType, data, size, masked, i + size)
  }

  /** What a connection is asked to send. */
  datatype Sending =
    | WriteMessage(messageType: int, data: seq<byte>)
    | WriteFragmented(messageType: int, data: seq<byte>, fragmentSize: int)
    | WritePing(data: seq<byte>)
    | WritePong(data: seq<byte>)
    | WriteClose(code: int, reason: seq<byte>)
  {
    /** The calls the source serves: a fragment size that makes progress, a size that Go can count. */
    predicate Callable() {
      && |Payload()| < TWO_TO_63
      && (WriteFragmented? ==> fragmentSize > 0 || data == [])
    }

    function Payload(): seq<byte> {
      if WriteClose? then ClosePayload(code, reason) else data
    }

    function Type(): int {
      match this
      case WriteMessage(t, _) => t
      case WriteFragmented(t, _, _) => t
      case WritePing(_) => 9
      case WritePong(_) => 10
      case WriteClose(_, _) => 8
    }

    function Frames(masked: bool): seq<Frame>
      requires Callable()
    {
      if WriteFragmented? then
        if data == [] then [] else Fragments(messageType, data, fragmentSize, masked, 0)
      else
        [Whole(Type(), Payload(), masked)]
    }

    /** What the other end should be given. */
    function Delivery(): Outcome {
      Message(Type(), Payload())
    }

    /** A message of the protocol: a data message, or a control message in one frame. */
    predicate WellFormed() {
      && Callable()
      && (WriteMessage? ==> messageType in {1, 2, 8, 9, 10})
      && (WriteFragmented? ==> messageType in {1, 2} && data != [])
    }

    /** The limits of the reading end, in the sender's terms. */
    predicate Fits(end: Endpoint)
      requires Callable()
    {
      && (Type() < 8 ==> |Payload()| <= end.maxMessageSize)
      && (if WriteFragmented? && data != [] then Min(fragmentSize, |data|) else |Payload()|) <= end.maxFrameSize
    }
  }

  function ClosePayload(code: int, reason: seq<byte>): seq<byte> {
    Bytes(code % 0x1_0000, 2) + reason
  }

  /** How the receive loop reads a close frame's payload. */
  function ParseClose(payload: seq<byte>): (int, seq<byte>) {
    if |payload| < 2 then (1000, []) else (Value(payload[..2]), payload[2..])
  }

  /**
   * A close code and its reason survive the trip exactly when the code fits 16 bits; a payload too
   * short for a code is read as a normal closure.
   */
  lemma CloseRoundTrip(code: int, reason: seq<byte>)
    ensures ParseClose(ClosePayload(code, reason)) == (code, reason) <==> 0 <= code < 0x1_0000
    ensures |reason| < 2 ==> ParseClose(reason) == (1000, [])
  {
    FieldCapacities();
    var b := Bytes(code % 0x1_0000, 2);
    assert (b + reason)[..2] == b && (b + reason)[2..] == reason;
    ValueOfBytes(code % 0x1_0000, 2);
  }

  // ---- Fragments, section 5.4 of RFC 6455 ----

  function Concat(fs: seq<Frame>): seq<byte> {
    if fs == [] then [] else fs[0].payload + Concat(fs[1..])
  }

  /** The first fragment from offset `i` on, and the ones after it. */
  lemma FirstFragment(messageType: int, data: seq<byte>, size: int, masked: bool, i: nat)
    requires size > 0 && i < |data|
    ensures var fs := Fragments(messageType, data, size, masked, i);
            var stop := Min(i + size, |data|);
            var opcode := if i > 0 then OPCODE_CONTINUATION else OpcodeOf(messageType);
            && fs != []
            && fs[0] == Frame(Plain(stop == |data|, opcode, masked), data[i..stop])
            && fs[1..] == Fragments(messageType, data, size, masked, i + size)
            && (fs[1..] == [] <==> stop == |data|)
  {}

  lemma {:induction false} FragmentShapeFrom(messageType: int, data: seq<byte>, size: int, masked: bool, i: nat)
    requires size > 0 && i < |data|
    ensures var fs := Fragments(messageType, data, size, masked, i);
            && Concat(fs) == data[i..]
            && (forall j :: 0 <= j < |fs| ==>
                  && 0 < |fs[j].payload| <= size
                  && fs[j].head == Plain(j == |fs| - 1,
                                         if i == 0 && j == 0 then OpcodeOf(messageType) else OPCODE_CONTINUATION,
                                         masked))
    decreases |data| - i
  {
    hide Fragments;
    var stop := Min(i + size, |data|);
    var fs := Fragments(messageType, data, size, masked, i);
    FirstFragment(messageType, data, size, masked, i);
    if stop < |data| {
      FragmentShapeFrom(messageType, data, size, masked, i + size);
      assert data[i..] == data[i..stop] + data[stop..];
      assert forall j :: 0 < j < |fs| ==> fs[j] == fs[1..][j - 1];
    } else {
      assert data[i..stop] + [] == data[i..];
    }
  }

  lemma {:induction false} FragmentCount(messageType: int, data: seq<byte>, size: int, masked: bool, i: nat)
    requires size > 0 && i < |data|
    ensures var n := |Fragments(messageType, data, size, masked, i)|;
            (n - 1) * size < |data| - i <= n * size
    decreases |data| - i
  {
    hide Fragments;
    FirstFragment(messageType, data, size, masked, i);
    var n := |Fragments(messageType, data, size, masked, i)|;
    if i + size < |data| {
      FragmentCount(messageType, data, size, masked, i + size);
      assert (n - 1) * size == (n - 2) * size + size;
      assert n * size == (n - 1) * size + size;
    } else {
      assert n == 1;
    }
  }

  /**
   * The frames of a fragmented message: one data opcode, then continuations only, FIN on the
   * last alone, no empty frame and none above the fragment size, the payloads spelling the
   * data, and as few frames as that allows.
   */
  lemma FragmentShape(messageType: int, data: seq<byte>, size: int, masked: bool)
    requires size > 0 && data != []
    ensures var fs := Fragments(messageType, data, size, masked, 0);
            && Concat(fs) == data
            && fs != [] && fs[0].head.opcode == OpcodeOf(messageType)
            && (forall j :: 0 < j < |fs| ==> fs[j].head.opcode == OPCODE_CONTINUATION)
            && (forall j :: 0 <= j < |fs| ==> fs[j].head.fin == (j == |fs| - 1))
            && (forall j :: 0 <= j < |fs| ==> 0 < |fs[j].payload| <= size)
            && (|fs| - 1) * size < |data| <= |fs| * size
  {
    FirstFragment(messageType, data, size, masked, 0);
    FragmentShapeFrom(messageType, data, size, masked, 0);
    FragmentCount(messageType, data, size, masked, 0);
    assert data[0..] == data;
  }

  // ---- Whole streams ----

  /** The keys a client draws, one for each frame it masks. */
  type KeySource = nat -> Key

  function Drawn(masked: bool): nat {
    if masked then 1 else 0
  }

  function EncodeAll(fs: seq<Frame>, keys: KeySource, k: nat): seq<byte> {
    if fs == [] then []
    else Encode(fs[0], keys(k)) + EncodeAll(fs[1..], keys, k + Drawn(fs[0].head.masked))
  }

  /** How many keys a list of frames draws. */
  function KeysFor(fs: seq<Frame>): nat {
    if fs == [] then 0 else Drawn(fs[0].head.masked) + KeysFor(fs[1..])
  }

  lemma EncodeAllFirst(f: Frame, fs: seq<Frame>, keys: KeySource, k: nat)
    ensures EncodeAll([f] + fs, keys, k) == Encode(f, keys(k)) + EncodeAll(fs, keys, k + Drawn(f.head.masked))
    ensures KeysFor([f] + fs) == Drawn(f.head.masked) + KeysFor(fs)
  {
    hide Encode;
    assert ([f] + fs)[1..] == fs;
  }

  lemma {:induction false} KeysForAppend(fs: seq<Frame>, gs: seq<Frame>)
    ensures KeysFor(fs + gs) == KeysFor(fs) + KeysFor(gs)
  {
    if fs == [] {
      assert fs + gs == gs;
    } else {
      assert (fs + gs)[1..] == fs[1..] + gs;
      KeysForAppend(fs[1..], gs);
    }
  }

  lemma {:induction false} EncodeAllAppend(fs: seq<Frame>, gs: seq<Frame>, keys: KeySource, k: nat)
    ensures EncodeAll(fs + gs, keys, k) == EncodeAll(fs, keys, k) + EncodeAll(gs, keys, k + KeysFor(fs))
    decreases |fs|
  {
    hide Encode, EncodeAll, KeysFor;
    if fs == [] {
      assert fs + gs == gs;
      NoFrames(keys, k);
      assert [] + EncodeAll(gs, keys, k) == EncodeAll(gs, keys, k);
    } else {
      var f, tail := fs[0], fs[1..];
      var k1 := k + Drawn(f.head.masked);
      EncodeAllAppend(tail, gs, keys, k1);
      EncodeAllFirst(f, tail, keys, k);
      EncodeAllFirst(f, tail + gs, keys, k);
      Unshift(fs, gs);
      Associative(Encode(f, keys(k)), EncodeAll(tail, keys, k1), EncodeAll(gs, keys, k1 + KeysFor(tail)));
    }
  }

  lemma Unshift(fs: seq<Frame>, gs: seq<Frame>)
    requires fs != []
    ensures [fs[0]] + fs[1..] == fs && [fs[0]] + (fs[1..] + gs) == fs + gs
  {}

  lemma NoFrames(keys: KeySource, k: nat)
    ensures EncodeAll([], keys, k) == [] && KeysFor([]) == 0
  {}

  lemma Associative(a: seq<byte>, b: seq<byte>, c: seq<byte>)
    ensures a + (b + c) == a + b + c
  {}

  lemma SplitFirst(before: seq<byte>, fs: seq<Frame>, keys: KeySource, k: nat)
    requires fs != []
    ensures EncodeAll(fs, keys, k)
            == Encode(fs[0], keys(k)) + EncodeAll(fs[1..], keys, k + Drawn(fs[0].head.masked))
    ensures before + EncodeAll(fs, keys, k)
            == before + Encode(fs[0], keys(k)) + EncodeAll(fs[1..], keys, k + Drawn(fs[0].head.masked))
    ensures KeysFor(fs) == Drawn(fs[0].head.masked) + KeysFor(fs[1..])
  {
    hide Encode;
  }

  /** One fragment after another, read back: the rest of the message arrives or is too large. */
  lemma {:induction false} ReadFragments(end: Endpoint, messageType: int, data: seq<byte>, size: int, masked: bool,
                                         i: nat, keys: KeySource, k: nat, rest: seq<byte>)
    requires size > 0 && i < |data| < TWO_TO_63 && messageType in {1, 2} && MaskAllowed(end, masked)
    requires i <= AtLeast0(end.maxMessageSize)
    ensures var fs := Fragments(messageType, data, size, masked, i);
            var r := ReadLoop(end, EncodeAll(fs, keys, k) + rest, if i == 0 then 0 else messageType, data[..i]);
            && (Min(size, |data| - i) <= end.maxFrameSize && |data| <= end.maxMessageSize ==>
                  r == Reading(Message(messageType, data), rest, data))
            && (Min(size, |data| - i) > end.maxFrameSize || |data| > end.maxMessageSize ==>
                  r.outcome == Failed(MessageTooLarge))
    decreases |data| - i
  {
    hide Encode, Decode, Fragments, OpcodeOf, KeysFor, EncodeAll, ReadLoop;
    var fs := Fragments(messageType, data, size, masked, i);
    FirstFragment(messageType, data, size, masked, i);
    FragmentStep(end, messageType, data, size, masked, i, fs, keys, k, rest);
    EncodeNothing(keys, k + Drawn(masked), rest);
    var stop := Min(i + size, |data|);
    if stop < |data| && stop - i <= end.maxFrameSize && stop <= end.maxMessageSize {
      ReadFragments(end, messageType, data, size, masked, i + size, keys, k + Drawn(masked), rest);
    }
  }

  /** The frame at the front is the fragment at offset `i`, whatever comes behind it. */
  lemma FragmentStep(end: Endpoint, messageType: int, data: seq<byte>, size: int, masked: bool, i: nat,
                     gs: seq<Frame>, keys: KeySource, k: nat, rest: seq<byte>)
    requires size > 0 && i < |data| < TWO_TO_63 && messageType in {1, 2} && MaskAllowed(end, masked)
    requires gs != [] && gs[0] == Fragments(messageType, data, size, masked, i)[0]
    ensures var r := ReadLoop(end, EncodeAll(gs, keys, k) + rest, if i == 0 then 0 else messageType, data[..i]);
            var after := EncodeAll(gs[1..], keys, k + Drawn(masked)) + rest;
            var stop := Min(i + size, |data|);
            if stop - i > end.maxFrameSize || stop > end.maxMessageSize then r.outcome == Failed(MessageTooLarge)
            else if stop == |data| then r == Reading(Message(messageType, data), after, data)
            else r == ReadLoop(end, after, messageType, data[..i + size])
  {
    hide Encode, Decode, Fragments, OpcodeOf, EncodeAll;
    var stop := Min(i + size, |data|);
    FirstFragment(messageType, data, size, masked, i);
    OpcodeOfData(messageType);
    ReadFirst(end, gs, keys, k, rest);
    assert data[..i] + data[i..stop] == data[..stop];
    assert data[..|data|] == data;
  }

  lemma OpcodeOfData(messageType: int)
    requires messageType in {1, 2, 8, 9, 10}
    ensures ValidOpcode(OpcodeOf(messageType)) && OpcodeOf(messageType) != OPCODE_CONTINUATION
    ensures OpcodeOf(messageType) as int == messageType
    ensures OpcodeOf(messageType) >= 0x8 <==> messageType >= 8
    ensures ValidOpcode(OPCODE_CONTINUATION)
  {}

  /** The first frame of a stream is decoded, or turned down for its size. */
  lemma FirstFrame(end: Endpoint, f: Frame, key: Key, after: seq<byte>)
    requires |f.payload| < TWO_TO_63 && ValidOpcode(f.head.opcode) && MaskAllowed(end, f.head.masked)
    ensures |f.payload| <= end.maxFrameSize ==> Decode(end, Encode(f, key) + after) == Got(f, after)
    ensures |f.payload| > end.maxFrameSize ==>
              var p := Decode(end, Encode(f, key) + after);
              p.Stop? && p.error == MessageTooLarge
  {
    FrameRoundTrip(end, f, key, after);
    DecodeEncodedHead(end, f, key, after);
    LengthRoundTrip(|f.payload|, Tail(f, key) + after);
  }

  /** The first of a list of encoded frames: decoded, with the others left, or turned down for its size. */
  lemma ReadFirst(end: Endpoint, fs: seq<Frame>, keys: KeySource, k: nat, rest: seq<byte>)
    requires fs != [] && |fs[0].payload| < TWO_TO_63
    requires ValidOpcode(fs[0].head.opcode) && MaskAllowed(end, fs[0].head.masked)
    ensures var p := Decode(end, EncodeAll(fs, keys, k) + rest);
            if |fs[0].payload| <= end.maxFrameSize then
              p == Got(fs[0], EncodeAll(fs[1..], keys, k + Drawn(fs[0].head.masked)) + rest)
            else
              p.Stop? && p.error == MessageTooLarge
  {
    hide Encode, Decode, EncodeAll;
    SplitFirst([], fs, keys, k);
    var others := EncodeAll(fs[1..], keys, k + Drawn(fs[0].head.masked));
    Associative(Encode(fs[0], keys(k)), others, rest);
    FirstFrame(end, fs[0], keys(k), others + rest);
  }

  /**
   * One call of ReadMessage at the other end gives back what one call sent, and takes exactly
   * the bytes that call wrote, if and only if the message fits the reader's limits; a message
   * that does not fit is reported as too large.
   */
  lemma MessageRoundTrip(end: Endpoint, m: Sending, masked: bool, keys: KeySource, k: nat, rest: seq<byte>)
    requires m.WellFormed() && MaskAllowed(end, masked)
    ensures var r := Read(end, EncodeAll(m.Frames(masked), keys, k) + rest);
            && (m.Fits(end) <==> r.outcome == m.Delivery() && r.rest == rest)
            && (!m.Fits(end) ==> r.outcome == Failed(MessageTooLarge))
  {
    if m.WriteFragmented? {
      hide EncodeAll, ReadLoop;
      ReadFragments(end, m.messageType, m.data, m.fragmentSize, masked, 0, keys, k, rest);
      assert m.data[..0] == [];
    } else {
      hide EncodeAll, ReadLoop, OpcodeOf;
      var f := Whole(m.Type(), m.Payload(), masked);
      EncodeOne(f, keys, k);
      ReadOne(end, m.Type(), f, keys(k), rest);
    }
  }

  lemma EncodeOne(f: Frame, keys: KeySource, k: nat)
    ensures EncodeAll([f], keys, k) == Encode(f, keys(k)) && KeysFor([f]) == Drawn(f.head.masked)
  {
    hide Encode;
    assert [f][1..] == [];
  }

  /** A message in a single frame. */
  lemma ReadOne(end: Endpoint, messageType: int, f: Frame, key: Key, rest: seq<byte>)
    requires messageType in {1, 2, 8, 9, 10} && f == Whole(messageType, f.payload, f.head.masked)
    requires |f.payload| < TWO_TO_63 && MaskAllowed(end, f.head.masked)
    ensures var r := Read(end, Encode(f, key) + rest);
            if |f.payload| <= end.maxFrameSize && (messageType < 8 ==> |f.payload| <= end.maxMessageSize) then
              r.outcome == Message(messageType, f.payload) && r.rest == rest
            else
              r.outcome == Failed(MessageTooLarge)
  {
    hide Encode, Decode, OpcodeOf;
    OpcodeOfData(messageType);
    FirstFrame(end, f, key, rest);
    assert [] + f.payload == f.payload;
  }

  /** Of all well-typed calls only a fragmented write of nothing sends nothing. */
  lemma SendsNothing(m: Sending, masked: bool)
    requires m.Callable()
    ensures m.Frames(masked) == [] <==> m.WriteFragmented? && m.data == []
  {
    if m.WriteFragmented? && m.data != [] {
      FirstFragment(m.messageType, m.data, m.fragmentSize, masked, 0);
    }
  }

  /**
   * Fragmenting a message does not change what the reader is given, except in two cases:
   * fragments that fit a frame get through where the whole message would not, and an empty
   * message, which the whole write delivers, is not sent at all.
   */
  lemma FragmentationIsInvisible(end: Endpoint, t: int, data: seq<byte>, size: int, masked: bool,
                                 keys: KeySource, k1: nat, k2: nat, rest: seq<byte>)
    requires t in {1, 2} && |data| < TWO_TO_63 && (size > 0 || data == []) && MaskAllowed(end, masked)
    ensures var pieces := Read(end, EncodeAll(WriteFragmented(t, data, size).Frames(masked), keys, k1) + rest);
            var whole := Read(end, EncodeAll(WriteMessage(t, data).Frames(masked), keys, k2) + rest);
            && (data != [] ==>
                  (pieces.outcome == whole.outcome
                   <==> !(Min(size, |data|) <= end.maxFrameSize < |data| <= end.maxMessageSize)))
            && (data != [] && whole.outcome.Message? ==> pieces.rest == whole.rest == rest)
            && (data == [] ==> pieces == Read(end, rest))
            && (data == [] && 0 <= end.maxFrameSize && 0 <= end.maxMessageSize ==>
                  whole.outcome == Message(t, []) && whole.rest == rest)
  {
    hide Read, EncodeAll;
    MessageRoundTrip(end, WriteMessage(t, data), masked, keys, k2, rest);
    if data == [] {
      EncodeNothing(keys, k1, rest);
    } else {
      MessageRoundTrip(end, WriteFragmented(t, data, size), masked, keys, k1, rest);
    }
  }

  predicate AllWellFormed(ms: seq<Sending>) {
    forall i :: 0 <= i < |ms| ==> ms[i].WellFormed()
  }

  predicate AllFit(end: Endpoint, ms: seq<Sending>)
    requires AllWellFormed(ms)
  {
    forall i :: 0 <= i < |ms| ==> ms[i].Fits(end)
  }

  function FramesOf(ms: seq<Sending>, masked: bool): seq<Frame>
    requires AllWellFormed(ms)
  {
    if ms == [] then [] else ms[0].Frames(masked) + FramesOf(ms[1..], masked)
  }

  /** Calls ReadMessage until it has been called `n` times or has failed. */
  function ReadMany(end: Endpoint, s: seq<byte>, n: nat): (seq<Outcome>, seq<byte>)
    decreases n
  {
    if n == 0 then ([], s)
    else
      var r := Read(end, s);
      if r.outcome.Failed? then ([r.outcome], r.rest)
      else
        var (outcomes, rest) := ReadMany(end, r.rest, n - 1);
        ([r.outcome] + outcomes, rest)
  }

  function Deliveries(ms: seq<Sending>): (os: seq<Outcome>)
    ensures |os| == |ms|
  {
    seq(|ms|, i requires 0 <= i < |ms| => ms[i].Delivery())
  }

  lemma StreamSplit(ms: seq<Sending>, masked: bool, keys: KeySource, k: nat)
    requires ms != [] && AllWellFormed(ms)
    ensures var fs := ms[0].Frames(masked);
            EncodeAll(FramesOf(ms, masked), keys, k)
            == EncodeAll(fs, keys, k) + EncodeAll(FramesOf(ms[1..], masked), keys, k + KeysFor(fs))
  {
    hide EncodeAll, Sending.Frames;
    EncodeAllAppend(ms[0].Frames(masked), FramesOf(ms[1..], masked), keys, k);
  }

  /** One more call after a delivery: the outcomes and the stream left over. */
  lemma ReadManyStep(end: Endpoint, s: seq<byte>, d: Outcome, rest: seq<byte>, ds: seq<Outcome>, left: seq<byte>)
    requires d.Message?
    requires Read(end, s).outcome == d ==> Read(end, s).rest == rest
    requires Read(end, s).outcome != d ==> Read(end, s).outcome.Failed?
    ensures ReadMany(end, s, 1 + |ds|) == ([d] + ds, left)
            <==> Read(end, s).outcome == d && ReadMany(end, rest, |ds|) == (ds, left)
    ensures ReadMany(end, s, 1 + |ds|).0 == [d] + ds
            <==> Read(end, s).outcome == d && ReadMany(end, rest, |ds|).0 == ds
  {
    hide Read;
    var (os, _) := ReadMany(end, rest, |ds|);
    assert ([d] + os)[1..] == os && ([d] + ds)[1..] == ds;
    assert ([d] + ds)[0] == d;
    var r := Read(end, s);
    if r.outcome == d {
      assert ReadMany(end, s, 1 + |ds|).0 == [d] + os;
    } else {
      assert ReadMany(end, s, 1 + |ds|).0 == [r.outcome];
    }
  }

  /**
   * A whole conversation: any list of messages, whole or fragmented, with control messages
   * between them, is read back as exactly that list from exactly the bytes written, if and
   * only if every message fits the reader's limits.
   */
  lemma {:induction false} StreamRoundTrip(end: Endpoint, ms: seq<Sending>, masked: bool,
                                           keys: KeySource, k: nat, rest: seq<byte>)
    requires AllWellFormed(ms) && MaskAllowed(end, masked)
    ensures ReadMany(end, EncodeAll(FramesOf(ms, masked), keys, k) + rest, |ms|) == (Deliveries(ms), rest)
            <==> AllFit(end, ms)
    ensures ReadMany(end, EncodeAll(FramesOf(ms, masked), keys, k) + rest, |ms|).0 == Deliveries(ms)
            <==> AllFit(end, ms)
  {
    hide EncodeAll, Read, Sending.Frames, Sending.Fits, Sending.Payload, KeysFor;
    if ms == [] {
      assert FramesOf(ms, masked) == [];
      EncodeNothing(keys, k, rest);
    } else {
      var m, others := ms[0], ms[1..];
      var fs := m.Frames(masked);
      var wire := EncodeAll(FramesOf(others, masked), keys, k + KeysFor(fs)) + rest;
      StreamSplit(ms, masked, keys, k);
      assert EncodeAll(FramesOf(ms, masked), keys, k) + rest == EncodeAll(fs, keys, k) + wire;
      MessageRoundTrip(end, m, masked, keys, k, wire);
      StreamRoundTrip(end, others, masked, keys, k + KeysFor(fs), rest);
      assert Deliveries(ms) == [m.Delivery()] + Deliveries(others);
      ReadManyStep(end, EncodeAll(fs, keys, k) + wire, m.Delivery(), wire, Deliveries(others), rest);
      AllFitSplit(end, ms);
    }
  }

  lemma EncodeNothing(keys: KeySource, k: nat, rest: seq<byte>)
    ensures EncodeAll([], keys, k) + rest == rest
  {}

  lemma AllFitSplit(end: Endpoint, ms: seq<Sending>)
    requires ms != [] && AllWellFormed(ms)
    ensures AllFit(end, ms) <==> ms[0].Fits(end) && AllFit(end, ms[1..])
  {
    if ms[0].Fits(end) && AllFit(end, ms[1..]) {
      forall i | 0 <= i < |ms| ensures ms[i].Fits(end) {
        assert i > 0 ==> ms[i] == ms[1..][i - 1];
      }
    }
  }

  // ---- A control frame among the fragments of a message ----

  function Insert(fs: seq<Frame>, m: nat, x: Frame): seq<Frame>
    requires m <= |fs|
  {
    fs[..m] + ([x] + fs[m..])
  }

  lemma InsertFirst(fs: seq<Frame>, m: nat, x: Frame)
    requires m <= |fs|
    ensures Insert(fs, m, x) != []
    ensures m == 0 ==> Insert(fs, m, x)[0] == x && Insert(fs, m, x)[1..] == fs == fs[m..] && KeysFor(fs[..m]) == 0
    ensures m > 0 ==> Insert(fs, m, x)[0] == fs[0] && Insert(fs, m, x)[1..] == Insert(fs[1..], m - 1, x)
                      && fs[m..] == fs[1..][m - 1..]
                      && KeysFor(fs[..m]) == Drawn(fs[0].head.masked) + KeysFor(fs[1..][..m - 1])
  {
    if m > 0 {
      assert fs[..m][0] == fs[0] && fs[..m][1..] == fs[1..][..m - 1];
      assert Insert(fs, m, x)[1..] == fs[..m][1..] + ([x] + fs[m..]);
    }
  }

  /** Reading up to a control frame that comes before fragment `m` of those from offset `i` on. */
  lemma {:induction false} ReadToControl(end: Endpoint, t: int, data: seq<byte>, size: int, ctl: Frame, i: nat, m: nat,
                                         keys: KeySource, k: nat, rest: seq<byte>)
    requires t in {1, 2} && size > 0 && i < |data| < TWO_TO_63 && i <= AtLeast0(end.maxMessageSize)
    requires ctl.head.opcode >= 0x8 && ValidOpcode(ctl.head.opcode) && |ctl.payload| < TWO_TO_63
    requires MaskAllowed(end, ctl.head.masked)
    requires m < |Fragments(t, data, size, ctl.head.masked, i)|
    ensures var fs := Fragments(t, data, size, ctl.head.masked, i);
            var r := ReadLoop(end, EncodeAll(Insert(fs, m, ctl), keys, k) + rest, if i == 0 then 0 else t, data[..i]);
            var k' := k + KeysFor(fs[..m]) + Drawn(ctl.head.masked);
            var reached := r.outcome == Message(ctl.head.opcode as int, ctl.payload)
                           && r.rest == EncodeAll(fs[m..], keys, k') + rest;
            var fit := Min(size, |data| - i) <= end.maxFrameSize && |data| <= end.maxMessageSize
                       && |ctl.payload| <= end.maxFrameSize;
            (reached || r.outcome == Failed(MessageTooLarge)) && (fit ==> reached)
    decreases m
  {
    hide Encode, Decode, EncodeAll, Fragments, Insert, KeysFor, ValidOpcode, ReadLoop;
    var masked := ctl.head.masked;
    var fs := Fragments(t, data, size, masked, i);
    InsertFirst(fs, m, ctl);
    if m == 0 {
      ControlFirst(end, Insert(fs, m, ctl), if i == 0 then 0 else t, data[..i], keys, k, rest);
    } else {
      FirstFragment(t, data, size, masked, i);
      FragmentStep(end, t, data, size, masked, i, Insert(fs, m, ctl), keys, k, rest);
      var stop := Min(i + size, |data|);
      if stop - i <= end.maxFrameSize && stop <= end.maxMessageSize {
        ReadToControl(end, t, data, size, ctl, i + size, m - 1, keys, k + Drawn(masked), rest);
      }
    }
  }

  /** A control frame at the front is returned, whatever is in the buffer. */
  lemma ControlFirst(end: Endpoint, fs: seq<Frame>, messageType: int, buffer: seq<byte>,
                     keys: KeySource, k: nat, rest: seq<byte>)
    requires fs != [] && |fs[0].payload| < TWO_TO_63 && fs[0].head.opcode >= 0x8
    requires ValidOpcode(fs[0].head.opcode) && MaskAllowed(end, fs[0].head.masked)
    ensures var r := ReadLoop(end, EncodeAll(fs, keys, k) + rest, messageType, buffer);
            if |fs[0].payload| <= end.maxFrameSize then
              && r.outcome == Message(fs[0].head.opcode as int, fs[0].payload)
              && r.rest == EncodeAll(fs[1..], keys, k + Drawn(fs[0].head.masked)) + rest
            else
              r.outcome == Failed(MessageTooLarge)
  {
    hide Encode, Decode, EncodeAll, ValidOpcode;
    ReadFirst(end, fs, keys, k, rest);
  }

  /** A continuation that begins a call is turned down. */
  lemma ContinuationFirst(end: Endpoint, fs: seq<Frame>, keys: KeySource, k: nat, rest: seq<byte>)
    requires fs != [] && |fs[0].payload| < TWO_TO_63
    requires fs[0].head.opcode == OPCODE_CONTINUATION && MaskAllowed(end, fs[0].head.masked)
    ensures var r := Read(end, EncodeAll(fs, keys, k) + rest);
            && r.outcome.Failed?
            && (|fs[0].payload| <= end.maxFrameSize ==> r.outcome == Failed(InvalidFrame))
  {
    hide Encode, Decode, EncodeAll;
    ReadFirst(end, fs, keys, k, rest);
  }

  /** Two messages, one after the other: both arrive, or the first that does not fit ends the reading. */
  lemma ReadTwo(end: Endpoint, a: Sending, b: Sending, masked: bool, keys: KeySource, k: nat, rest: seq<byte>)
    requires a.WellFormed() && b.WellFormed() && MaskAllowed(end, masked)
    ensures ReadMany(end, EncodeAll(a.Frames(masked) + b.Frames(masked), keys, k) + rest, 2).0
            == if !a.Fits(end) then [Failed(MessageTooLarge)]
               else [a.Delivery(), if b.Fits(end) then b.Delivery() else Failed(MessageTooLarge)]
  {
    hide Read, EncodeAll, Sending.Frames, Sending.Fits;
    var fa, fb := a.Frames(masked), b.Frames(masked);
    var k2 := k + KeysFor(fa);
    EncodeAllAppend(fa, fb, keys, k);
    Associative(EncodeAll(fa, keys, k), EncodeAll(fb, keys, k2), rest);
    MessageRoundTrip(end, a, masked, keys, k, EncodeAll(fb, keys, k2) + rest);
    MessageRoundTrip(end, b, masked, keys, k2, rest);
  }

  /**
   * A control frame that is sent before fragment `m` of a message, or after all of them. Section
   * 5.4 of RFC 6455 allows it anywhere; but both messages arrive if and only if they fit and the
   * control frame is not strictly inside. Inside, the reader returns the control frame, forgets
   * the fragments before it and turns down the one after it.
   */
  lemma ControlAmongFragments(end: Endpoint, t: int, data: seq<byte>, size: int, control: int, p: seq<byte>, m: nat,
                              masked: bool, keys: KeySource, k: nat, rest: seq<byte>)
    requires t in {1, 2} && control in {8, 9, 10} && size > 0 && MaskAllowed(end, masked)
    requires 0 < |data| < TWO_TO_63 && |p| < TWO_TO_63
    requires m <= |Fragments(t, data, size, masked, 0)|
    ensures var fs := Fragments(t, data, size, masked, 0);
            var wire := EncodeAll(Insert(fs, m, Whole(control, p, masked)), keys, k) + rest;
            var os := ReadMany(end, wire, 2).0;
            var fit := WriteFragmented(t, data, size).Fits(end) && WriteMessage(control, p).Fits(end);
            && (Message(t, data) in os && Message(control, p) in os <==> fit && (m == 0 || m == |fs|))
            && (fit && 0 < m < |fs| ==> os == [Message(control, p), Failed(InvalidFrame)])
  {
    hide EncodeAll, Fragments, ReadMany, Insert, Sending.Fits;
    if m == 0 || m == |Fragments(t, data, size, masked, 0)| {
      ControlOutside(end, t, data, size, control, p, m, masked, keys, k, rest);
    } else {
      ControlInside(end, t, data, size, control, p, m, masked, keys, k, rest);
    }
  }

  lemma ControlOutside(end: Endpoint, t: int, data: seq<byte>, size: int, control: int, p: seq<byte>, m: nat,
                       masked: bool, keys: KeySource, k: nat, rest: seq<byte>)
    requires t in {1, 2} && control in {8, 9, 10} && size > 0 && MaskAllowed(end, masked)
    requires 0 < |data| < TWO_TO_63 && |p| < TWO_TO_63
    requires m == 0 || m == |Fragments(t, data, size, masked, 0)|
    ensures var fs := Fragments(t, data, size, masked, 0);
            var wire := EncodeAll(Insert(fs, m, Whole(control, p, masked)), keys, k) + rest;
            var os := ReadMany(end, wire, 2).0;
            Message(t, data) in os && Message(control, p) in os
            <==> WriteFragmented(t, data, size).Fits(end) && WriteMessage(control, p).Fits(end)
  {
    hide EncodeAll, Fragments, ReadMany, Sending.Fits;
    var fs := Fragments(t, data, size, masked, 0);
    var message, c := WriteFragmented(t, data, size), WriteMessage(control, p);
    assert message.Frames(masked) == fs && c.Frames(masked) == [Whole(control, p, masked)];
    if m == 0 {
      assert Insert(fs, m, Whole(control, p, masked)) == c.Frames(masked) + fs;
      ReadTwo(end, c, message, masked, keys, k, rest);
    } else {
      assert Insert(fs, m, Whole(control, p, masked)) == fs + c.Frames(masked);
      ReadTwo(end, message, c, masked, keys, k, rest);
    }
  }

  lemma ControlInside(end: Endpoint, t: int, data: seq<byte>, size: int, control: int, p: seq<byte>, m: nat,
                      masked: bool, keys: KeySource, k: nat, rest: seq<byte>)
    requires t in {1, 2} && control in {8, 9, 10} && size > 0 && MaskAllowed(end, masked)
    requires 0 < |data| < TWO_TO_63 && |p| < TWO_TO_63
    requires 0 < m < |Fragments(t, data, size, masked, 0)|
    ensures var fs := Fragments(t, data, size, masked, 0);
            var wire := EncodeAll(Insert(fs, m, Whole(control, p, masked)), keys, k) + rest;
            var os := ReadMany(end, wire, 2).0;
            && Message(t, data) !in os
            && (WriteFragmented(t, data, size).Fits(end) && WriteMessage(control, p).Fits(end) ==>
                  os == [Message(control, p), Failed(InvalidFrame)])
  {
    hide Encode, Decode, EncodeAll, Fragments, OpcodeOf, ReadLoop, Insert;
    var fs := Fragments(t, data, size, masked, 0);
    var ctl := Whole(control, p, masked);
    OpcodeOfData(control);
    FragmentShapeFrom(t, data, size, masked, 0);
    assert fs[m..][0] == fs[m] && data[..0] == [];
    ReadToControl(end, t, data, size, ctl, 0, m, keys, k, rest);
    FragmentWithin(t, data, size, masked, m);
    ContinuationFirst(end, fs[m..], keys, k + KeysFor(fs[..m]) + Drawn(masked), rest);
  }

  /** No fragment is longer than the data. */
  lemma FragmentWithin(t: int, data: seq<byte>, size: int, masked: bool, m: nat)
    requires size > 0 && 0 < |data| && m < |Fragments(t, data, size, masked, 0)|
    ensures |Fragments(t, data, size, masked, 0)[m].payload| <= Min(size, |data|)
  {
    FragmentShapeFrom(t, data, size, masked, 0);
    PayloadWithin(Fragments(t, data, size, masked, 0), m);
    assert data[0..] == data;
  }

  lemma {:induction false} PayloadWithin(fs: seq<Frame>, m: nat)
    requires m < |fs|
    ensures |fs[m].payload| <= |Concat(fs)|
    decreases m
  {
    if m > 0 {
      PayloadWithin(fs[1..], m - 1);
    }
  }

  // ---- Data frames in the middle of a message ----

  /** The frames of one message, except that any of them may name a type. */
  predicate DataFrames(fs: seq<Frame>, masked: bool) {
    && fs != []
    && forall i :: 0 <= i < |fs| ==>
         && fs[i].head.opcode in {OPCODE_CONTINUATION, OPCODE_TEXT, OPCODE_BINARY}
         && fs[i].head.fin == (i == |fs| - 1) && fs[i].head.masked == masked && |fs[i].payload| < TWO_TO_63
  }

  function TypeAfter(messageType: int, fs: seq<Frame>): int
    decreases fs
  {
    if fs == [] then messageType
    else TypeAfter(if fs[0].head.opcode == OPCODE_CONTINUATION then messageType else fs[0].head.opcode as int, fs[1..])
  }

  predicate FramesFit(end: Endpoint, fs: seq<Frame>) {
    forall i :: 0 <= i < |fs| ==> |fs[i].payload| <= end.maxFrameSize
  }

  /** One data frame read: it ends the message, or the rest follows. */
  lemma DataFrameStep(end: Endpoint, fs: seq<Frame>, masked: bool, messageType: int, buffer: seq<byte>,
                      keys: KeySource, k: nat, rest: seq<byte>)
    requires DataFrames(fs, masked) && MaskAllowed(end, masked)
    requires messageType != 0 || fs[0].head.opcode != OPCODE_CONTINUATION
    ensures var r := ReadLoop(end, EncodeAll(fs, keys, k) + rest, messageType, buffer);
            var t := TypeAfter(messageType, [fs[0]]);
            var b := buffer + fs[0].payload;
            var after := EncodeAll(fs[1..], keys, k + Drawn(masked)) + rest;
            if |fs[0].payload| > end.maxFrameSize || |b| > end.maxMessageSize then
              r.outcome == Failed(MessageTooLarge)
            else if |fs| == 1 then
              r == Reading(Message(t, b), after, b)
            else
              t != 0 && r == ReadLoop(end, after, t, b)
  {
    hide Encode, Decode, EncodeAll;
    ReadFirst(end, fs, keys, k, rest);
  }

  lemma FramesSplit(end: Endpoint, fs: seq<Frame>, masked: bool)
    requires DataFrames(fs, masked)
    ensures FramesFit(end, fs) <==> |fs[0].payload| <= end.maxFrameSize && FramesFit(end, fs[1..])
    ensures if |fs| > 1 then DataFrames(fs[1..], masked) else fs[1..] == [] && FramesFit(end, fs[1..])
  {
    assert forall i :: 0 < i < |fs| ==> fs[i] == fs[1..][i - 1];
  }

  lemma {:induction false} DataFramesAreJoined(end: Endpoint, fs: seq<Frame>, masked: bool, messageType: int,
                                               buffer: seq<byte>, keys: KeySource, k: nat, rest: seq<byte>)
    requires DataFrames(fs, masked) && MaskAllowed(end, masked)
    requires messageType != 0 || fs[0].head.opcode != OPCODE_CONTINUATION
    ensures var r := ReadLoop(end, EncodeAll(fs, keys, k) + rest, messageType, buffer);
            var b := buffer + Concat(fs);
            if FramesFit(end, fs) && |b| <= end.maxMessageSize then
              r == Reading(Message(TypeAfter(messageType, fs), b), rest, b)
            else
              r.outcome == Failed(MessageTooLarge)
    decreases |fs|
  {
    hide EncodeAll, ReadLoop, FramesFit;
    DataFrameStep(end, fs, masked, messageType, buffer, keys, k, rest);
    FramesSplit(end, fs, masked);
    var b := buffer + fs[0].payload;
    assert buffer + Concat(fs) == b + Concat(fs[1..]);
    if |fs| > 1 {
      if |fs[0].payload| <= end.maxFrameSize && |b| <= end.maxMessageSize {
        DataFramesAreJoined(end, fs[1..], masked, TypeAfter(messageType, [fs[0]]), b, keys, k + Drawn(masked), rest);
      }
    } else {
      assert b + [] == b && TypeAfter(messageType, fs) == TypeAfter(messageType, [fs[0]]);
      EncodeNothing(keys, k + Drawn(masked), rest);
    }
  }

  /** After a list of frames the type is that of the last one that names a type. */
  lemma {:induction false} TypeIsTheLast(messageType: int, fs: seq<Frame>, j: nat)
    requires j < |fs| && fs[j].head.opcode != OPCODE_CONTINUATION
    requires forall i :: j < i < |fs| ==> fs[i].head.opcode == OPCODE_CONTINUATION
    ensures TypeAfter(messageType, fs) == fs[j].head.opcode as int
    decreases |fs|
  {
    var t := if fs[0].head.opcode == OPCODE_CONTINUATION then messageType else fs[0].head.opcode as int;
    if j > 0 {
      TypeIsTheLast(t, fs[1..], j - 1);
    } else {
      OnlyContinuations(t, fs[1..]);
    }
  }

  lemma {:induction false} OnlyContinuations(messageType: int, fs: seq<Frame>)
    requires forall i :: 0 <= i < |fs| ==> fs[i].head.opcode == OPCODE_CONTINUATION
    ensures TypeAfter(messageType, fs) == messageType
    decreases |fs|
  {
    if fs != [] {
      OnlyContinuations(messageType, fs[1..]);
    }
  }

  /**
   * Section 5.4 of RFC 6455 forbids a new data frame before the message under way has ended; the
   * reader splices it on. Whatever data frames come up to a final one, they are read as a single
   * message, of the type that was named last, if and only if they fit.
   */
  lemma NewTypeIsSpliced(end: Endpoint, fs: seq<Frame>, j: nat, masked: bool, keys: KeySource, k: nat, rest: seq<byte>)
    requires DataFrames(fs, masked) && MaskAllowed(end, masked) && fs[0].head.opcode != OPCODE_CONTINUATION
    requires j < |fs| && fs[j].head.opcode != OPCODE_CONTINUATION
    requires forall i :: j < i < |fs| ==> fs[i].head.opcode == OPCODE_CONTINUATION
    ensures var r := Read(end, EncodeAll(fs, keys, k) + rest);
            if FramesFit(end, fs) && |Concat(fs)| <= end.maxMessageSize then
              r.outcome == Message(fs[j].head.opcode as int, Concat(fs)) && r.rest == rest
            else
              r.outcome == Failed(MessageTooLarge)
  {
    hide EncodeAll, ReadLoop, DataFrames, FramesFit;
    DataFramesAreJoined(end, fs, masked, 0, [], keys, k, rest);
    TypeIsTheLast(0, fs, j);
    assert [] + Concat(fs) == Concat(fs);
  }
}
