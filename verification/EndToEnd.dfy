/** The writer, the wire and the reader put together. */
module EndToEnd {
  import opened Common
  import opened Framing
  import opened Packets
  import ReadPath
  import Session
  import WritePath

  /** The frames of a list of sent packets. */
  function SentFrames(sent: seq<Outgoing>): (fs: seq<Frame>)
    ensures |fs| == |sent|
  {
    seq(|sent|, i requires 0 <= i < |sent| => OutFrame(sent[i]))
  }

  lemma {:induction false} SentBytes(sent: seq<Outgoing>)
    ensures Concat(WritePath.FramesOf(sent)) == Wire(SentFrames(sent))
  {
    if sent != [] {
      SentBytes(sent[1..]);
      assert WritePath.FramesOf(sent)[1..] == WritePath.FramesOf(sent[1..]);
      assert SentFrames(sent)[1..] == SentFrames(sent[1..]);
    }
  }

  /** A packet that fits is a well-formed frame. */
  lemma FittingIsWellFormed(p: Outgoing)
    requires Fits(p)
    ensures OutFrame(p).WellFormed()
  {
    OutBodyIsConcat(p);
    LengthRoundTrip(OutHeader(p), |OutBody(p)|, []);
  }

  /** A sequential reading of any prefix of what was sent yields the first packets sent,
      with the same flags, topics, ids and payloads, and all of them once all bytes are in. */
  lemma StreamRoundTrip(sent: seq<Outgoing>, received: seq<Byte>)
    requires forall p :: p in sent ==> Sendable(p) && Fits(p)
    requires received <= Concat(WritePath.FramesOf(sent))
    ensures var fs := Parse(received).0;
      && |fs| <= |sent|
      && (forall i :: 0 <= i < |fs| ==> fs[i] == OutFrame(sent[i]) && fs[i].header[0] == FirstByte(sent[i]))
      && (forall i :: 0 <= i < |fs| ==> Build(4, fs[i].header[0], fs[i].body) == Built(Expected(sent[i])))
    ensures received == Concat(WritePath.FramesOf(sent)) ==> |Parse(received).0| == |sent|
  {
    var all := SentFrames(sent);
    SentBytes(sent);
    forall i | 0 <= i < |sent| ensures all[i].WellFormed() {
      FittingIsWellFormed(sent[i]);
    }
    ParseOfPrefix(all, received);
    var fs := Parse(received).0;
    forall i | 0 <= i < |fs|
      ensures fs[i].header[0] == FirstByte(sent[i])
      ensures Build(4, fs[i].header[0], fs[i].body) == Built(Expected(sent[i]))
    {
      assert fs[i] == all[i];
      OutBodyIsConcat(sent[i]);
      HeaderIsFirstByte(sent[i]);
      BodyRoundTrip(sent[i]);
    }
  }

  /** End to end: whatever writev took at a time and whatever recv gave at a time, the
      packets the reader has completed are the first packets the writer has accepted. */
  lemma EndToEnd(w: WritePath.SocketModule, ws: int, sent: seq<Outgoing>, r: ReadPath.SocketReader, rs: int)
    requires w.Valid() && ws in w.wire && ws !in w.broken
    requires w.accepted[ws] == WritePath.FramesOf(sent)
    requires forall p :: p in sent ==> Sendable(p) && Fits(p)
    requires r.Valid() && rs in r.received && r.received[rs] <= w.wire[ws]
    ensures |r.frames[rs]| <= |sent|
    ensures forall i :: 0 <= i < |r.frames[rs]| ==>
      r.frames[rs][i].header[0] == FirstByte(sent[i]) &&
      Build(4, r.frames[rs][i].header[0], r.frames[rs][i].body) == Built(Expected(sent[i]))
    ensures WritePath.NotPending(w.writes, ws) && r.received[rs] == w.wire[ws] ==> |r.frames[rs]| == |sent|
  {
    w.WireIsPackets(ws);
    r.ReadingIsParsing(rs);
    StreamRoundTrip(sent, r.received[rs]);
  }

  /** What MQTTProtocol_handlePublishes reads from a packet. */
  function Incoming(p: Packet): Session.Inbound
    requires p.Publish?
  {
    Session.Inbound(p.topic, p.payload, QosOf(p.header), RetainOf(p.header), DupOf(p.header), p.msgId)
  }

  /** A PUBLISH that fits is handed to the application as it was sent: the entry queued for the
      packet that is read carries the topic, payload, QoS, id and flags of the one sent. */
  lemma DeliveredIsSent(p: Outgoing, rest: seq<Byte>, e: Session.QEntry)
    requires p.SendPublish? && Sendable(p) && Fits(p) && p.qos == 1
    ensures var fs := Parse(OutFrame(p).Bytes() + rest).0;
      && fs != []
      && var b := Build(4, fs[0].header[0], fs[0].body);
      && b.Built? && b.packet.Publish?
      && (Session.Carries(e, Incoming(b.packet)) <==>
           && e.topic == p.topic && e.payload == p.payload && e.msgid == p.msgId
           && e.qos == 1 && e.retained == p.retained % 2 && e.dup == p.dup % 2)
  {
    hide Parse, Build;
    PacketRoundTrip(p, rest);
  }
}
