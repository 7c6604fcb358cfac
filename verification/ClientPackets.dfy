/** CONNECT and SUBSCRIBE (MQTTPacket_send_connect and MQTTPacket_send_subscribe of
    src/MQTTPacket.c): bodies written through a pointer into buffers of a computed size. */
module ClientPackets {
  import opened Common
  import opened Framing
  import opened Packets
  import opened Writers
  import opened WritePath

  const MQTT: seq<Byte> := [77, 81, 84, 84]

  datatype Connect = Connect(version: nat, keepAlive: nat, clientId: seq<Byte>,
                             username: Option<seq<Byte>>, password: Option<seq<Byte>>)

  function OptionalLength(s: Option<seq<Byte>>): nat {
    if s.Some? then |s.value| + 2 else 0
  }

  function Optional(s: Option<seq<Byte>>): (b: seq<Byte>)
    ensures |b| == OptionalLength(s)
  {
    if s.Some? then Str(s.value) else []
  }

  /** Bit 7 announces a user name, bit 6 a password. */
  function Flags(c: Connect): Byte {
    (if c.username.Some? then 128 else 0) + (if c.password.Some? then 64 else 0)
  }

  function ConnectBody(c: Connect): (b: seq<Byte>) {
    ConnectHead(c) + (Str(c.clientId) + (Optional(c.username) + Optional(c.password)))
  }

  /** The buffer size of MQTTPacket_send_connect. */
  function ConnectLength(c: Connect): nat {
    10 + |c.clientId| + 2 + OptionalLength(c.username) + OptionalLength(c.password)
  }

  /** The fixed ten bytes in front of the payload. */
  function ConnectHead(c: Connect): (b: seq<Byte>) {
    Str(MQTT) + [c.version % 256, Flags(c)] + Int2(c.keepAlive)
  }

  /** The computed size is exactly what is written. */
  method WriteConnect(c: Connect) returns (body: array<Byte>)
    ensures body.Length == ConnectLength(c) && body[..] == ConnectBody(c)
    ensures body.Length >= 12 && body[..6] == [0x00, 0x04, 0x4D, 0x51, 0x54, 0x54]
  {
    NameIsFirst(c);
    hide ConnectHead, Str, Optional;
    var w := new Writer(ConnectLength(c));
    HeadIsTen(c);
    WriteHead(w, c);
    assert w.Written() == ConnectHead(c);
    w.WriteString(c.clientId);
    WriteOptional(w, c.username);
    WriteOptional(w, c.password);
    Rebracket(ConnectHead(c), Str(c.clientId), Optional(c.username), Optional(c.password));
    assert w.Written() == ConnectBody(c);
    body := w.buf;
  }

  lemma Rebracket(a: seq<Byte>, b: seq<Byte>, c: seq<Byte>, d: seq<Byte>)
    ensures a + b + c + d == a + (b + (c + d))
  {
  }

  lemma NameIsFirst(c: Connect)
    ensures |ConnectBody(c)| >= 12 && ConnectBody(c)[..6] == [0x00, 0x04, 0x4D, 0x51, 0x54, 0x54]
  {
  }

  lemma HeadIsTen(c: Connect)
    ensures |ConnectHead(c)| == 10
  {
  }

  method WriteHead(w: Writer, c: Connect)
    requires w.Valid() && w.Room(10)
    modifies w`pos, w.buf
    ensures w.Valid() && w.Written() == old(w.Written()) + ConnectHead(c) && w.pos == old(w.pos) + 10
  {
    hide Int2;
    w.WriteString(MQTT);
    w.WriteChar(c.version % 256);
    w.WriteChar(Flags(c));
    w.WriteInt(c.keepAlive);
    assert w.Written() == old(w.Written()) + ConnectHead(c);
  }

  method WriteOptional(w: Writer, s: Option<seq<Byte>>)
    requires w.Valid() && w.Room(OptionalLength(s))
    modifies w`pos, w.buf
    ensures w.Valid() && w.Written() == old(w.Written()) + Optional(s)
  {
    if s.Some? {
      w.WriteString(s.value);
    }
  }

  // ----- reading a CONNECT body (section 3.1 of MQTT 3.1.1)

  function ReadOptional(present: bool, b: seq<Byte>): (r: Option<(Option<seq<Byte>>, seq<Byte>)>) {
    if !present then Some((None, b))
    else match ReadString(b)
      case None => None
      case Some((s, rest)) => Some((Some(s), rest))
  }

  /** The protocol name in front is that of section 3.1.2.1. */
  function ReadConnect(b: seq<Byte>): (r: Option<Connect>) {
    if |b| < 10 || b[..6] != [0x00, 0x04, 0x4D, 0x51, 0x54, 0x54] || b[7] % 64 != 0 then None
    else match ReadString(b[10..])
      case None => None
      case Some((clientId, rest)) =>
        match ReadOptional(b[7] / 128 == 1, rest)
        case None => None
        case Some((username, more)) =>
          match ReadOptional(b[7] / 64 % 2 == 1, more)
          case None => None
          case Some((password, end)) =>
            if end != [] then None
            else Some(Connect(b[6], ReadInt2(b[8..10]), clientId, username, password))
  }

  predicate Short(s: Option<seq<Byte>>) {
    s.Some? ==> |s.value| <= 65535
  }

  lemma OptionalRoundTrip(s: Option<seq<Byte>>, rest: seq<Byte>)
    ensures Short(s) ==> ReadOptional(s.Some?, Optional(s) + rest) == Some((s, rest))
    ensures !Short(s) ==> (var r := ReadOptional(true, Optional(s) + rest); r.Some? ==> r.value.0 != s)
  {
    hide Str, ReadString;
    match s
    case None =>
      assert Optional(s) + rest == rest;
    case Some(v) =>
      StringRoundTrip(v, rest);
  }

  /** A CONNECT is read back field by field exactly when all its parts fit their fields. */
  lemma ConnectRoundTrip(c: Connect)
    ensures ReadConnect(ConnectBody(c)) == Some(c) <==>
      && c.version < 256 && c.keepAlive < 65536
      && |c.clientId| <= 65535 && Short(c.username) && Short(c.password)
  {
    hide ReadString, ReadOptional, Optional, Str, Int2, ConnectHead, Flags;
    var payload := Str(c.clientId) + (Optional(c.username) + Optional(c.password));
    var b := ConnectBody(c);
    HeadFields(c, payload);
    StringRoundTrip(c.clientId, Optional(c.username) + Optional(c.password));
    OptionalRoundTrip(c.username, Optional(c.password));
    OptionalRoundTrip(c.password, []);
    assert Optional(c.password) + [] == Optional(c.password);
  }

  lemma HeadFields(c: Connect, payload: seq<Byte>)
    ensures var b := ConnectHead(c) + payload;
      && |b| >= 10 && b[..6] == [0x00, 0x04, 0x4D, 0x51, 0x54, 0x54] && b[6] == c.version % 256 && b[7] == Flags(c)
      && ReadInt2(b[8..10]) == c.keepAlive % 65536 && b[10..] == payload
      && Flags(c) % 64 == 0
      && (Flags(c) / 128 == 1 <==> c.username.Some?) && (Flags(c) / 64 % 2 == 1 <==> c.password.Some?)
  {
    var b := ConnectHead(c) + payload;
    assert b[8..10] == Int2(c.keepAlive) + [];
    Int2RoundTrip(c.keepAlive, []);
  }

  /** The packet on the wire, with the first byte of section 3.1.1. */
  function ConnectFrame(c: Connect): Frame {
    Frame([0x10] + Digits(|ConnectBody(c)|), ConnectBody(c))
  }

  /** MQTTPacket_send_connect. */
  method SendConnect(m: SocketModule, s: int, c: Connect) returns (rc: PutResult)
    requires m.Valid() && s in m.wire
    modifies m
    ensures m.Valid() && m.wire.Keys == old(m.wire.Keys) && m.broken == old(m.broken)
    ensures m.accepted ==
      if rc.SocketError? then old(m.accepted)
      else old(m.accepted)[s := old(m.accepted[s]) + [ConnectFrame(c).Bytes()]]
  {
    hide ConnectBody, Digits, SocketModule.Valid;
    var body := WriteConnect(c);
    OneBuffer(body[..]);
    rc := m.SendBuffers(s, HeaderByte(1, 0, 0, 0), [body[..]]);
  }

  lemma OneBuffer(b: seq<Byte>)
    ensures Concat([b]) == b
  {
    assert Concat([b]) == b + Concat([]);
  }

  /** A CONNECT is read from the front of the wire as it was given exactly when all its parts
      fit their fields; it is then never too long. */
  lemma ConnectFrameRoundTrip(c: Connect, rest: seq<Byte>)
    ensures var fs := Parse(ConnectFrame(c).Bytes() + rest).0;
      fs != [] && fs[0].header[0] == 0x10 && ReadConnect(fs[0].body) == Some(c) <==>
        && c.version < 256 && c.keepAlive < 65536
        && |c.clientId| <= 65535 && Short(c.username) && Short(c.password)
  {
    hide ReadConnect, ConnectHead, Parse, Digits, Frame.WellFormed;
    HeadIsTen(c);
    ConnectRoundTrip(c);
    FrameIsFirst(0x10, ConnectBody(c), rest);
  }

  // ----- SUBSCRIBE

  datatype Subscription = Subscription(topic: seq<Byte>, qos: nat)

  function SubscriptionBytes(t: Subscription): (b: seq<Byte>)
    ensures |b| == |t.topic| + 3
  {
    Str(t.topic) + [t.qos % 256]
  }

  function ListBytes(ts: seq<Subscription>): (b: seq<Byte>) {
    if ts == [] then [] else ListBytes(ts[..|ts| - 1]) + SubscriptionBytes(ts[|ts| - 1])
  }

  function SubscribeBody(msgId: nat, ts: seq<Subscription>): (b: seq<Byte>) {
    Int2(msgId) + ListBytes(ts)
  }

  lemma {:induction false} ListBytesStep(ts: seq<Subscription>, i: nat)
    requires i < |ts|
    ensures ListBytes(ts[..i + 1]) == ListBytes(ts[..i]) + SubscriptionBytes(ts[i])
    ensures |ListBytes(ts[..i])| + |SubscriptionBytes(ts[i])| <= |ListBytes(ts)|
    decreases |ts| - i
  {
    hide SubscriptionBytes;
    assert ts[..i + 1][..i] == ts[..i];
    if i + 1 < |ts| {
      ListBytesStep(ts, i + 1);
    } else {
      assert ts[..i + 1] == ts;
    }
  }

  lemma NoBytes(ts: seq<Subscription>)
    requires ts == []
    ensures ListBytes(ts) == []
  {
  }

  /** The loop that adds up the topic lengths: two length bytes and an option byte each. */
  method SubscribeLength(ts: seq<Subscription>) returns (n: nat)
    ensures n == 2 + |ListBytes(ts)|
  {
    hide ListBytes;
    n := 2 + |ts| * 3;
    NoBytes(ts[..0]);
    for i := 0 to |ts|
      invariant n == 2 + |ListBytes(ts[..i])| + 3 * (|ts| - i)
    {
      ListBytesStep(ts, i);
      n := n + |ts[i].topic|;
    }
    assert ts[..|ts|] == ts;
  }

  /** The computed size is exactly what is written. */
  method WriteSubscribe(msgId: nat, ts: seq<Subscription>) returns (body: array<Byte>)
    ensures body[..] == SubscribeBody(msgId, ts)
  {
    hide Int2, ListBytes;
    var datalen := SubscribeLength(ts);
    var w := new Writer(datalen);
    w.WriteInt(msgId);
    NoBytes(ts[..0]);
    for i := 0 to |ts|
      invariant w.Valid() && fresh(w) && fresh(w.buf) && w.buf.Length == 2 + |ListBytes(ts)|
      invariant w.Written() == Int2(msgId) + ListBytes(ts[..i])
    {
      ListBytesStep(ts, i);
      ghost var before := w.Written();
      w.WriteString(ts[i].topic);
      w.WriteChar(ts[i].qos % 256);
      assert w.Written() == before + SubscriptionBytes(ts[i]);
    }
    assert ts[..|ts|] == ts;
    body := w.buf;
    assert body[..] == w.Written();
  }

  /** Reading the payload of a SUBSCRIBE (section 3.8.3 of MQTT 3.1.1). */
  function ReadList(b: seq<Byte>): (r: Option<seq<Subscription>>)
    decreases |b|
  {
    if b == [] then Some([])
    else match ReadString(b)
      case None => None
      case Some((topic, rest)) =>
        if rest == [] then None
        else match ReadList(rest[1..])
          case None => None
          case Some(ts) => Some([Subscription(topic, rest[0])] + ts)
  }

  predicate Sound(t: Subscription) {
    |t.topic| <= 65535 && t.qos < 256
  }

  ghost predicate AllSound(ts: seq<Subscription>) {
    forall i :: 0 <= i < |ts| ==> Sound(ts[i])
  }

  lemma {:induction false} ListCons(t: Subscription, ts: seq<Subscription>)
    ensures ListBytes([t] + ts) == SubscriptionBytes(t) + ListBytes(ts)
  {
    hide SubscriptionBytes;
    if ts == [] {
      assert [t] + ts == [t] && [t][..0] == [];
    } else {
      var n := |ts| - 1;
      assert ([t] + ts)[..n + 1] == [t] + ts[..n];
      ListCons(t, ts[..n]);
    }
  }

  /** The list of subscriptions is read back as it was given exactly when every topic and
      option fits its field. */
  lemma SubscribeRoundTrip(msgId: nat, ts: seq<Subscription>)
    ensures ReadInt2(SubscribeBody(msgId, ts)) == msgId % 65536
    ensures ReadList(SubscribeBody(msgId, ts)[2..]) == Some(ts) <==> AllSound(ts)
  {
    Int2RoundTrip(msgId, ListBytes(ts));
    assert SubscribeBody(msgId, ts)[2..] == ListBytes(ts);
    ListRoundTrip(ts);
  }

  lemma {:induction false} ListRoundTrip(ts: seq<Subscription>)
    ensures ReadList(ListBytes(ts)) == Some(ts) <==> AllSound(ts)
  {
    hide SubscriptionBytes, Sound, ReadString;
    if ts != [] {
      var t, rest := ts[0], ts[1..];
      assert [t] + rest == ts;
      ListRoundTrip(rest);
      ListCons(t, rest);
      SubscriptionReadsBack(t, ListBytes(rest));
      ConsSound(t, rest);
    }
  }

  lemma ConsSound(t: Subscription, ts: seq<Subscription>)
    ensures AllSound([t] + ts) <==> Sound(t) && AllSound(ts)
  {
    hide Sound;
    var all := [t] + ts;
    if AllSound(all) {
      assert all[0] == t;
      assert forall i :: 0 <= i < |ts| ==> ts[i] == all[i + 1];
    }
  }

  lemma SubscriptionReadsBack(t: Subscription, rest: seq<Byte>)
    ensures var r := ReadList(SubscriptionBytes(t) + rest);
      if Sound(t) then
        r == match ReadList(rest) case None => None case Some(ts) => Some([t] + ts)
      else
        r.Some? ==> r.value != [] && r.value[0] != t
  {
    hide ReadString, Str;
    var b := SubscriptionBytes(t) + rest;
    var tail := [t.qos % 256] + rest;
    assert b == Str(t.topic) + tail;
    StringRoundTrip(t.topic, tail);
    assert tail[1..] == rest;
  }
  /** The packet on the wire; bits 3 to 0 of the first byte are those of section 3.8.1 unless it
      is sent as a duplicate. */
  function SubscribeFrame(msgId: nat, dup: nat, ts: seq<Subscription>): Frame {
    var body := SubscribeBody(msgId, ts);
    Frame([if dup % 2 == 0 then 0x82 else 0x8A] + Digits(|body|), body)
  }

  /** MQTTPacket_send_subscribe. */
  method SendSubscribe(m: SocketModule, s: int, msgId: nat, dup: nat, ts: seq<Subscription>) returns (rc: PutResult)
    requires m.Valid() && s in m.wire
    modifies m
    ensures m.Valid() && m.wire.Keys == old(m.wire.Keys) && m.broken == old(m.broken)
    ensures m.accepted ==
      if rc.SocketError? then old(m.accepted)
      else old(m.accepted)[s := old(m.accepted[s]) + [SubscribeFrame(msgId, dup, ts).Bytes()]]
  {
    hide SubscribeBody, Digits, SocketModule.Valid;
    var body := WriteSubscribe(msgId, ts);
    OneBuffer(body[..]);
    rc := m.SendBuffers(s, HeaderByte(8, dup, 1, 0), [body[..]]);
  }

  /** A SUBSCRIBE is read from the front of the wire as it was given exactly when id, topics and
      options fit their fields and all of it fits the length. */
  lemma SubscribeFrameRoundTrip(msgId: nat, dup: nat, ts: seq<Subscription>, rest: seq<Byte>)
    ensures var fs := Parse(SubscribeFrame(msgId, dup, ts).Bytes() + rest).0;
      && fs != [] && fs[0].header[0] == (if dup % 2 == 0 then 0x82 else 0x8A) && |fs[0].body| >= 2
      && ReadInt2(fs[0].body) == msgId && ReadList(fs[0].body[2..]) == Some(ts)
      <==> msgId < 65536 && AllSound(ts) && 2 + |ListBytes(ts)| <= MAX_REMAINING
  {
    hide ReadList, ListBytes, Int2, ReadInt2, AllSound, Parse, Digits, Frame.WellFormed;
    SubscribeRoundTrip(msgId, ts);
    FrameIsFirst(if dup % 2 == 0 then 0x82 else 0x8A, SubscribeBody(msgId, ts), rest);
  }
}
