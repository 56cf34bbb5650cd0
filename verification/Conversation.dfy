/** Two connections: what one sends, the other receives. */
module Conversation {
  import opened BigEndian
  import opened Connection
  import opened Messages
  import opened Slices
  import opened WireFormat

  method ArrayOf(s: seq<byte>) returns (a: array<byte>)
    ensures fresh(a) && a[..] == s
  {
    a := new byte[|s|](i requires 0 <= i < |s| => s[i]);
  }

  /** Makes the call that `m` stands for. */
  method Send(c: Conn, m: Sending)
    requires m.Callable() && !c.closed && !c.fragmentedWriteInProgress
    modifies c`output, c`drawn, c`fragmentedWriteInProgress
    ensures c.Wrote(m.Frames(c.isClient)) && !c.fragmentedWriteInProgress
  {
    hide EncodeAll, KeysFor, Sending.Frames, Bytes;
    match m
    case WriteMessage(t, data) =>
      var a := ArrayOf(data);
      var err := c.WriteMessage(t, a);
    case WriteFragmented(t, data, size) =>
      var a := ArrayOf(data);
      var ok := c.WriteFragmented(t, a, size);
    case WritePing(data) =>
      var a := ArrayOf(data);
      c.WritePing(a);
    case WritePong(data) =>
      var a := ArrayOf(data);
      c.WritePong(a);
    case WriteClose(code, reason) =>
      var a := ArrayOf(reason);
      assert |m.Payload()| == 2 + |reason|;
      c.WriteClose(code, a);
  }

  method SendAll(c: Conn, ms: seq<Sending>)
    requires AllWellFormed(ms) && !c.closed && !c.fragmentedWriteInProgress
    modifies c`output, c`drawn, c`fragmentedWriteInProgress
    ensures c.Wrote(FramesOf(ms, c.isClient)) && !c.fragmentedWriteInProgress
  {
    hide EncodeAll, KeysFor, FramesOf, Sending.Frames;
    NoFramesOf(ms, c.isClient);
    NoFrames(c.keys, c.drawn);
    for i := 0 to |ms|
      invariant !c.fragmentedWriteInProgress
      invariant c.Wrote(FramesOf(ms[..i], c.isClient))
    {
      assert ms[..i + 1] == ms[..i] + [ms[i]];
      FramesOfAppend(ms[..i], ms[i], c.isClient);
      EncodeAllAppend(FramesOf(ms[..i], c.isClient), ms[i].Frames(c.isClient), c.keys, old(c.drawn));
      KeysForAppend(FramesOf(ms[..i], c.isClient), ms[i].Frames(c.isClient));
      Send(c, ms[i]);
    }
    assert ms[..|ms|] == ms;
  }

  lemma NoFramesOf(ms: seq<Sending>, masked: bool)
    ensures AllWellFormed(ms[..0]) && FramesOf(ms[..0], masked) == []
  {}

  lemma {:induction false} FramesOfAppend(ms: seq<Sending>, m: Sending, masked: bool)
    requires AllWellFormed(ms) && m.WellFormed()
    ensures FramesOf(ms + [m], masked) == FramesOf(ms, masked) + m.Frames(masked)
  {
    hide Sending.Frames, Sending.WellFormed, Sending.Callable;
    if ms == [] {
      assert ms + [m] == [m] && [m][1..] == [];
    } else {
      assert (ms + [m])[0] == ms[0] && (ms + [m])[1..] == ms[1..] + [m];
      FramesOfAppend(ms[1..], m, masked);
    }
  }

  /** Calls ReadMessage `n` times, or until a call fails. */
  method ReceiveAll(c: Conn, n: nat) returns (outcomes: seq<Outcome>)
    requires c.reader.Valid() && !c.closed
    modifies c`messageBuffer, c.reader
    ensures c.reader.Valid()
    ensures (outcomes, c.reader.Remaining()) == ReadMany(c.End(), old(c.reader.Remaining()), n)
  {
    hide Read;
    outcomes := [];
    var left := n;
    ghost var all := ReadMany(c.End(), c.reader.Remaining(), n);
    assert [] + all.0 == all.0;
    while left > 0
      invariant c.reader.Valid()
      invariant var (os, rest) := ReadMany(c.End(), c.reader.Remaining(), left); all == (outcomes + os, rest)
    {
      ghost var before, s := outcomes, c.reader.Remaining();
      var outcome := c.ReadMessage();
      assert outcome == Read(c.End(), s).outcome && c.reader.Remaining() == Read(c.End(), s).rest;
      outcomes := outcomes + [outcome];
      if outcome.Failed? {
        return;
      }
      ghost var os := ReadMany(c.End(), c.reader.Remaining(), left - 1).0;
      assert before + ([outcome] + os) == outcomes + os;
      left := left - 1;
    }
    assert outcomes + [] == outcomes;
  }

  /**
   * A new connection sends a list of messages, and a new connection at the other end receives
   * them, a client's if it is a server and a server's if it is a client: it is given exactly that
   * list if and only if every message fits its limits, and then nothing is left on the stream.
   */
  method Converse(sender: Conn, ms: seq<Sending>, end: Endpoint) returns (outcomes: seq<Outcome>, left: nat)
    requires AllWellFormed(ms)
    requires if end.isServer then sender.isClient else end.isClient ==> !sender.isClient
    requires sender.output == [] && !sender.closed && !sender.fragmentedWriteInProgress
    modifies sender
    ensures outcomes == Deliveries(ms) <==> AllFit(end, ms)
    ensures AllFit(end, ms) ==> left == 0
  {
    hide EncodeAll, FramesOf, ReadMany, AllFit;
    SendAll(sender, ms);
    var reader := new Reader(sender.output);
    var receiver := new Conn(end.isServer, end.isClient, end.maxFrameSize, end.maxMessageSize, sender.keys, reader);
    StreamRoundTrip(end, ms, sender.isClient, sender.keys, old(sender.drawn), []);
    assert reader.Remaining() == EncodeAll(FramesOf(ms, sender.isClient), sender.keys, old(sender.drawn)) + [];
    outcomes := ReceiveAll(receiver, |ms|);
    left := |reader.data| - reader.pos;
    assert left == |reader.Remaining()|;
  }
}
