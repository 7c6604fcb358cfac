/** The variable-length integer and the fixed header of an MQTT packet, and the reading
    of a byte stream as a sequence of frames (src/MQTTPacket.c). */
module Framing {
  import opened Common

  /** Largest remaining length that fits the four length bytes. */
  const MAX_REMAINING := 268435455

  /** The digits MQTTPacket_encode writes: base 128, least significant first, top bit set
      on every digit but the last. */
  function Digits(n: nat): (d: seq<Byte>)
    ensures |d| >= 1
  {
    if n < 128 then [n] else [n % 128 + 128] + Digits(n / 128)
  }

  function Power128(k: nat): nat {
    if k == 0 then 1 else 128 * Power128(k - 1)
  }

  /** The number a string of length digits stands for. */
  function Value(s: seq<Byte>): (n: nat) {
    if s == [] then 0 else s[0] % 128 + 128 * Value(s[1..])
  }

  lemma {:induction false} ValueSnoc(s: seq<Byte>, c: Byte)
    ensures Value(s + [c]) == Value(s) + (c % 128) * Power128(|s|)
  {
    if s == [] {
      assert s + [c] == [c];
      assert Value([c]) == c % 128 + 128 * Value([]);
    } else {
      assert (s + [c])[1..] == s[1..] + [c];
      ValueSnoc(s[1..], c);
      var d, p := c % 128, Power128(|s| - 1);
      assert 128 * (d * p) == d * (128 * p);
    }
  }

  /** A buffer with some bytes replaced from a position on. */
  function Placed(was: seq<Byte>, at: nat, bytes: seq<Byte>): (r: seq<Byte>)
    requires at + |bytes| <= |was|
    ensures |r| == |was|
  {
    was[..at] + bytes + was[at + |bytes|..]
  }

  lemma PlaceOneMore(was: seq<Byte>, at: nat, bytes: seq<Byte>, d: Byte)
    requires at + |bytes| < |was|
    ensures Placed(was, at, bytes)[at + |bytes| := d] == Placed(was, at, bytes + [d])
  {
  }

  lemma PlaceNothing(was: seq<Byte>, at: nat)
    requires at <= |was|
    ensures Placed(was, at, []) == was
  {
  }

  /** MQTTPacket_encode: with a null buffer it only counts. */
  method Encode(buf: array?<Byte>, at: nat, n: nat) returns (rc: nat)
    requires buf != null ==> at + |Digits(n)| <= buf.Length
    modifies buf
    ensures rc == |Digits(n)|
    ensures buf != null ==> buf[..] == Placed(old(buf[..]), at, Digits(n))
  {
    hide Digits, Placed;
    rc := 0;
    var length := n;
    ghost var was, done: seq<Byte> := if buf == null then [] else buf[..], [];
    if buf != null {
      PlaceNothing(was, at);
    }
    while true
      invariant rc == |done|
      invariant done + Digits(length) == Digits(n)
      invariant buf != null ==> |was| == buf.Length && buf[..] == Placed(was, at, done)
      decreases length
    {
      TakeDigit(done, length, n);
      var d: Byte := length % 128;
      length := length / 128;
      if length > 0 {
        d := d + 128;
      }
      if buf != null {
        PlaceOneMore(was, at, done, d);
        buf[at + rc] := d;
      }
      rc := rc + 1;
      done := done + [d];
      if length == 0 {
        break;
      }
    }
  }

  lemma TakeDigit(done: seq<Byte>, m: nat, n: nat)
    requires done + Digits(m) == Digits(n)
    ensures m / 128 == 0 ==> done + [m % 128] == Digits(n)
    ensures m / 128 > 0 ==> (done + [m % 128 + 128]) + Digits(m / 128) == Digits(n)
  {
  }

  /** MQTTPacket_VBIlen. */
  function VbiLen(n: int): (rc: int) {
    if n < 128 then 1 else if n < 16384 then 2 else if n < 2097152 then 3 else 4
  }

  /** VBIlen is the encoded size exactly up to the largest remaining length. */
  lemma VbiLenIsEncodedSize(n: nat)
    ensures |Digits(n)| == VbiLen(n) <==> n <= MAX_REMAINING
    ensures n > MAX_REMAINING ==> |Digits(n)| > 4
  {
    DigitCount(n, 1);
    DigitCount(n, 2);
    DigitCount(n, 3);
    DigitCount(n, 4);
    assert Power128(1) == 128 && Power128(2) == 16384;
    assert Power128(3) == 2097152;
    assert Power128(4) == 128 * Power128(3);
  }

  lemma {:induction false} DigitCount(n: nat, k: nat)
    requires k >= 1
    ensures |Digits(n)| <= k <==> n < Power128(k)
  {
    if k == 1 {
      assert Power128(1) == 128;
    } else if n >= 128 {
      DigitCount(n / 128, k - 1);
    } else {
      Power128AtLeast(k);
    }
  }

  lemma {:induction false} Power128AtLeast(k: nat)
    requires k >= 1
    ensures Power128(k) >= 128
  {
    if k > 1 {
      Power128AtLeast(k - 1);
    }
  }

  // ----- fixed headers and frames

  /** The length of the complete fixed header at the front of b, 0 if there is none: the
      length bytes end at the first one without its top bit, at most four of them. */
  function HeaderLength(b: seq<Byte>): (n: nat)
    ensures n <= |b| && n <= 5
  {
    if |b| >= 2 && b[1] < 128 then 2
    else if |b| >= 3 && b[2] < 128 then 3
    else if |b| >= 4 && b[3] < 128 then 4
    else if |b| >= 5 && b[4] < 128 then 5
    else 0
  }

  predicate HeaderComplete(h: seq<Byte>) {
    h != [] && HeaderLength(h) == |h|
  }

  /** A fixed header still being received: every length byte so far asks for another. */
  predicate HeaderPartial(h: seq<Byte>) {
    |h| <= 4 && HeaderLength(h) == 0
  }

  function BodyLength(h: seq<Byte>): (n: nat)
    requires HeaderComplete(h)
  {
    Value(h[1..])
  }

  /** One packet as it stands on the wire. */
  datatype Frame = Frame(header: seq<Byte>, body: seq<Byte>) {
    predicate WellFormed() {
      HeaderComplete(header) && |body| == BodyLength(header)
    }

    function Bytes(): seq<Byte> {
      header + body
    }
  }

  ghost predicate AllWellFormed(fs: seq<Frame>) {
    forall i :: 0 <= i < |fs| ==> fs[i].WellFormed()
  }

  function Wire(fs: seq<Frame>): (b: seq<Byte>) {
    if fs == [] then [] else fs[0].Bytes() + Wire(fs[1..])
  }

  lemma {:induction false} WireAppend(fs: seq<Frame>, gs: seq<Frame>)
    ensures Wire(fs + gs) == Wire(fs) + Wire(gs)
  {
    if fs == [] {
      assert fs + gs == gs;
    } else {
      assert (fs + gs)[1..] == fs[1..] + gs;
      WireAppend(fs[1..], gs);
    }
  }

  lemma WireCons(f: Frame, fs: seq<Frame>)
    ensures Wire([f] + fs) == f.Bytes() + Wire(fs)
  {
    assert ([f] + fs)[1..] == fs;
  }

  lemma WireSnoc(fs: seq<Frame>, f: Frame)
    ensures Wire(fs + [f]) == Wire(fs) + f.Bytes()
  {
    WireAppend(fs, [f]);
    assert Wire([f]) == f.Bytes() + Wire([]);
  }

  /** Nothing can be taken off the front of b yet. */
  ghost predicate Incomplete(b: seq<Byte>) {
    HeaderLength(b) > 0 ==> |b| < HeaderLength(b) + BodyLength(b[..HeaderLength(b)])
  }

  /** The reference reading of a byte string, all at once and from the front: whole frames
      and the bytes left over. */
  function Parse(b: seq<Byte>): (r: (seq<Frame>, seq<Byte>))
    decreases |b|
  {
    var n := HeaderLength(b);
    if n == 0 then ([], b)
    else
      var len := BodyLength(b[..n]);
      if |b| < n + len then ([], b)
      else
        var f := Frame(b[..n], b[n..n + len]);
        var (fs, rest) := Parse(b[n + len..]);
        ([f] + fs, rest)
  }

  lemma HeaderLengthOfHeader(h: seq<Byte>, rest: seq<Byte>)
    requires HeaderComplete(h)
    ensures HeaderLength(h + rest) == |h| && (h + rest)[..|h|] == h
  {
    assert (h + rest)[..|h|] == h;
  }

  /** A whole frame at the front comes off as one. */
  lemma ParseStep(f: Frame, tail: seq<Byte>)
    requires f.WellFormed()
    ensures Parse(f.Bytes() + tail) == ([f] + Parse(tail).0, Parse(tail).1)
  {
    var b := f.Bytes() + tail;
    assert b == f.header + (f.body + tail);
    HeaderLengthOfHeader(f.header, f.body + tail);
    assert b[|f.header|..|f.header| + |f.body|] == f.body;
    assert b[|f.header| + |f.body|..] == tail;
  }

  /** A string that is not incomplete starts with a whole frame. */
  lemma FirstFrame(b: seq<Byte>) returns (f: Frame, tail: seq<Byte>)
    requires !Incomplete(b)
    ensures f.WellFormed() && b == f.Bytes() + tail && |tail| < |b|
  {
    hide Value, HeaderLength;
    var n := HeaderLength(b);
    HeaderIsComplete(b);
    var len := BodyLength(b[..n]);
    f, tail := Frame(b[..n], b[n..n + len]), b[n + len..];
    assert b == f.Bytes() + tail;
  }

  lemma HeaderIsComplete(b: seq<Byte>)
    ensures HeaderLength(b) > 0 ==> HeaderComplete(b[..HeaderLength(b)])
  {
  }

  lemma NoFrames()
    ensures Wire([]) == [] && AllWellFormed([])
  {
  }

  /** The reference reading loses nothing and stops only when it must. */
  lemma {:induction false} ParseIsSound(b: seq<Byte>)
    ensures AllWellFormed(Parse(b).0)
    ensures Wire(Parse(b).0) + Parse(b).1 == b
    ensures Incomplete(Parse(b).1)
    decreases |b|
  {
    hide Value, HeaderLength, Wire, AllWellFormed;
    if Incomplete(b) {
      NoFrames();
      assert Parse(b) == ([], b);
    } else {
      var f, tail := FirstFrame(b);
      ParseStep(f, tail);
      ParseIsSound(tail);
      FrameInFront(f, Parse(tail).0, Parse(tail).1);
    }
  }

  lemma FrameInFront(f: Frame, fs: seq<Frame>, rest: seq<Byte>)
    requires f.WellFormed() && AllWellFormed(fs)
    ensures AllWellFormed([f] + fs) && Wire([f] + fs) + rest == f.Bytes() + (Wire(fs) + rest)
  {
    hide Wire, Value, HeaderLength;
    WireCons(f, fs);
  }

  /** Unique reading: a string made of well-formed frames and an incomplete rest is read
      back as exactly those frames and that rest. */
  lemma {:induction false} ParseIsUnique(fs: seq<Frame>, rest: seq<Byte>)
    requires AllWellFormed(fs) && Incomplete(rest)
    ensures Parse(Wire(fs) + rest) == (fs, rest)
  {
    hide Value, HeaderLength;
    if fs == [] {
      assert Wire(fs) + rest == rest;
    } else {
      ParseIsUnique(fs[1..], rest);
      assert Wire(fs) + rest == fs[0].Bytes() + (Wire(fs[1..]) + rest);
      ParseStep(fs[0], Wire(fs[1..]) + rest);
      assert [fs[0]] + fs[1..] == fs;
    }
  }

  /** A strict prefix of a frame cannot be read. */
  lemma StrictPrefixIsIncomplete(f: Frame, b: seq<Byte>)
    requires f.WellFormed() && b <= f.Bytes() && |b| < |f.Bytes()|
    ensures Incomplete(b)
  {
    var n := HeaderLength(b);
    if n > 0 {
      var h := b[..n];
      HeaderLengthOfHeader(h, f.Bytes()[n..]);
      assert f.Bytes() == h + f.Bytes()[n..];
      HeaderLengthOfHeader(f.header, f.body);
      assert h == f.header;
    }
  }

  /** Reading a prefix of a stream yields a prefix of its frames: how far the bytes have
      come decides only how many frames are out, never which. */
  lemma {:induction false} ParseOfPrefix(fs: seq<Frame>, b: seq<Byte>)
    requires AllWellFormed(fs) && b <= Wire(fs)
    ensures Parse(b).0 <= fs
    ensures b == Wire(fs) ==> Parse(b) == (fs, [])
  {
    hide Value, HeaderLength;
    if b == Wire(fs) {
      ParseIsUnique(fs, []);
      assert Wire(fs) + [] == b;
    } else if fs != [] && |b| < |fs[0].Bytes()| {
      StrictPrefixIsIncomplete(fs[0], b);
    } else if fs != [] {
      var f := fs[0];
      var tail := b[|f.Bytes()|..];
      assert b == f.Bytes() + tail;
      ParseOfPrefix(fs[1..], tail);
      ParseStep(f, tail);
      assert [f] + fs[1..] == fs;
    }
  }

  lemma {:induction false} ValueOfDigits(n: nat)
    ensures Value(Digits(n)) == n
  {
    if n < 128 {
      assert Value([n]) == n % 128 + 128 * Value([]);
    } else {
      ValueOfDigits(n / 128);
      assert Digits(n)[1..] == Digits(n / 128);
    }
  }

  lemma {:induction false} DigitsContinue(n: nat)
    ensures Digits(n)[|Digits(n)| - 1] < 128
    ensures forall i :: 0 <= i < |Digits(n)| - 1 ==> Digits(n)[i] >= 128
  {
    if n >= 128 {
      DigitsContinue(n / 128);
      assert Digits(n)[1..] == Digits(n / 128);
    }
  }

  /** Encoding a length and reading it back are inverse exactly up to the largest remaining
      length; above it no complete header is ever seen, however much follows. */
  lemma LengthRoundTrip(first: Byte, n: nat, rest: seq<Byte>)
    ensures n <= MAX_REMAINING ==>
      var h := [first] + Digits(n);
      HeaderComplete(h) && BodyLength(h) == n && HeaderLength(h + rest) == |h|
    ensures n > MAX_REMAINING ==> HeaderLength([first] + Digits(n) + rest) == 0
  {
    var h := [first] + Digits(n);
    VbiLenIsEncodedSize(n);
    DigitsContinue(n);
    assert forall i :: 1 <= i < |h| ==> h[i] == Digits(n)[i - 1];
    assert h[1..] == Digits(n);
    ValueOfDigits(n);
  }

  /** A frame with its length in front is the first one read, and none is when it is too long. */
  lemma FrameIsFirst(first: Byte, body: seq<Byte>, rest: seq<Byte>)
    ensures var f := Frame([first] + Digits(|body|), body);
      if |body| <= MAX_REMAINING then
        f.WellFormed() && Parse(f.Bytes() + rest).0 != [] && Parse(f.Bytes() + rest).0[0] == f
      else Parse(f.Bytes() + rest).0 == []
  {
    var f := Frame([first] + Digits(|body|), body);
    LengthRoundTrip(first, |body|, body + rest);
    if |body| <= MAX_REMAINING {
      ParseStep(f, rest);
    } else {
      assert f.Bytes() + rest == [first] + Digits(|body|) + (body + rest);
    }
  }
}

/** Packet contents (src/MQTTPacket.c): what the writers put into the buffers and what the
    parsers make of a received body. */
module Packets {
  import opened Common
  import opened Framing

  // ----- the header byte's bit fields

  function TypeOf(h: Byte): nat { h / 16 }
  function DupOf(h: Byte): nat { h / 8 % 2 }
  function QosOf(h: Byte): nat { h / 2 % 4 }
  function RetainOf(h: Byte): nat { h % 2 }

  /** Storing into the bit fields keeps the low bits of each value. */
  function HeaderByte(kind: nat, dup: nat, qos: nat, retain: nat): (h: Byte)
    ensures TypeOf(h) == kind % 16 && DupOf(h) == dup % 2 && QosOf(h) == qos % 4 && RetainOf(h) == retain % 2
  {
    var k: int, d: int, q: int, r: int := kind % 16, dup % 2, qos % 4, retain % 2;
    var h := 16 * k + 8 * d + 2 * q + r;
    assert h / 16 == k && h / 8 == 2 * k + d && h / 2 == 8 * k + 4 * d + q;
    h
  }

  /** writeInt: two bytes, most significant first, cut to 16 bits. */
  function Int2(n: nat): (r: seq<Byte>)
    ensures |r| == 2
  {
    [n / 256 % 256, n % 256]
  }

  /** readInt. */
  function ReadInt2(b: seq<Byte>): (n: nat)
    requires |b| >= 2
    ensures n < 65536
  {
    256 * (b[0] as int) + b[1]
  }

  lemma Int2RoundTrip(n: nat, rest: seq<Byte>)
    ensures ReadInt2(Int2(n) + rest) == n % 65536
  {
  }

  // ----- received packets

  datatype Packet =
    | Publish(header: Byte, topic: seq<Byte>, msgId: nat, payload: seq<Byte>)
    | Ack(header: Byte, msgId: nat)
    | Connack(header: Byte, flags: Byte, code: Byte)
    | Suback(header: Byte, msgId: nat, qoss: seq<Byte>)

  /** MQTTPacket_publish. */
  function ParsePublish(h: Byte, data: seq<Byte>): (r: Option<Packet>) {
    if |data| <= 1 then None
    else
      var len := ReadInt2(data);
      if 2 + len > |data| then None
      else
        var topic := data[2..2 + len];
        var rest := data[2 + len..];
        if QosOf(h) > 0 then
          if |rest| < 2 then None
          else Some(Publish(h, topic, ReadInt2(rest), rest[2..]))
        else Some(Publish(h, topic, 0, rest))
  }

  /** MQTTPacket_ack; every type the table sends here is below DISCONNECT. */
  function ParseAck(h: Byte, data: seq<Byte>): (r: Option<Packet>) {
    if |data| < 2 then None else Some(Ack(h, ReadInt2(data)))
  }

  /** MQTTPacket_connack. */
  function ParseConnack(h: Byte, data: seq<Byte>): (r: Option<Packet>) {
    if |data| < 2 then None else Some(Connack(h, data[0], data[1]))
  }

  /** MQTTPacket_suback: at least one return code must follow the id. */
  function ParseSuback(h: Byte, data: seq<Byte>): (r: Option<Packet>) {
    if |data| < 2 || |data| == 2 then None else Some(Suback(h, ReadInt2(data), data[2..]))
  }

  /** What the dispatch makes of a whole frame: a packet, a type without a parser, a body the
      parser rejects, or a type past the end of the thirteen-entry table. */
  datatype Built = Built(packet: Packet) | NoParser | BadPacket | PastTable

  function FromParser(r: Option<Packet>): Built {
    match r
    case Some(p) => Built(p)
    case None => BadPacket
  }

  /** The dispatch of MQTTPacket_Factory over new_packets. */
  function Build(version: nat, h: Byte, data: seq<Byte>): (r: Built) {
    var kind := TypeOf(h);
    if kind < 1 || (version < 5 && kind >= 14) then NoParser
    else if kind >= 13 then PastTable
    else if kind == 1 || kind == 8 || kind == 10 then NoParser
    else if kind == 2 then FromParser(ParseConnack(h, data))
    else if kind == 3 then FromParser(ParsePublish(h, data))
    else if kind == 9 then FromParser(ParseSuback(h, data))
    else FromParser(ParseAck(h, data))
  }

  // ----- what is read, by the bytes of a frame (sections 3.2, 3.3, 3.4 and 3.9 of MQTT 3.1.1)

  /** A PUBLISH has a topic behind its length, an id when its QoS is not 0, and a payload. */
  ghost predicate PublishBytes(h: Byte, data: seq<Byte>, topic: seq<Byte>, id: nat, payload: seq<Byte>) {
    && |topic| < 65536 && id < 65536
    && if h / 2 % 4 == 0 then id == 0 && data == [|topic| / 256, |topic| % 256] + topic + payload
       else data == [|topic| / 256, |topic| % 256] + topic + [id / 256, id % 256] + payload
  }

  /** The packet handed out for a PUBLISH is the one reading its bytes have, and there is none
      exactly when they are too short for what they announce. */
  lemma PublishIsRead(version: nat, h: Byte, data: seq<Byte>, topic: seq<Byte>, id: nat, payload: seq<Byte>)
    requires h / 16 == 3
    ensures Build(version, h, data) == Built(Publish(h, topic, id, payload)) <==>
      PublishBytes(h, data, topic, id, payload)
    ensures Build(version, h, data) == BadPacket <==>
      |data| < 2 || |data| < 2 + (256 * (data[0] as int) + data[1]) + if h / 2 % 4 == 0 then 0 else 2
    ensures var r := Build(version, h, data); r == BadPacket || (r.Built? && r.packet.Publish?)
  {
    hide PublishBytes, ReadInt2;
    if |data| >= 2 {
      ReadsTwo(data);
    }
    if PublishBytes(h, data, topic, id, payload) {
      BytesArePublish(h, data, topic, id, payload);
    }
    if Build(version, h, data) == Built(Publish(h, topic, id, payload)) {
      PublishHasBytes(h, data, topic, id, payload);
    }
  }

  lemma BytesArePublish(h: Byte, data: seq<Byte>, topic: seq<Byte>, id: nat, payload: seq<Byte>)
    requires PublishBytes(h, data, topic, id, payload)
    ensures ParsePublish(h, data) == Some(Publish(h, topic, id, payload))
  {
    hide ReadInt2;
    var rest := if h / 2 % 4 == 0 then payload else [id / 256, id % 256] + payload;
    assert data == [|topic| / 256, |topic| % 256] + (topic + rest);
    ReadsBytes(|topic|, topic + rest);
    ReadsBytes(id, payload);
    assert data[2..2 + |topic|] == topic && data[2 + |topic|..] == rest;
    assert h / 2 % 4 != 0 ==> rest[2..] == payload;
  }

  lemma PublishHasBytes(h: Byte, data: seq<Byte>, topic: seq<Byte>, id: nat, payload: seq<Byte>)
    requires ParsePublish(h, data) == Some(Publish(h, topic, id, payload))
    ensures PublishBytes(h, data, topic, id, payload)
  {
    hide ReadInt2;
    ReadsTwo(data);
    assert data == data[..2] + topic + data[2 + |topic|..];
    if h / 2 % 4 != 0 {
      var rest := data[2 + |topic|..];
      ReadsTwo(rest);
      assert data == data[..2] + topic + rest[..2] + payload;
    }
  }

  lemma ReadsTwo(b: seq<Byte>)
    requires |b| >= 2
    ensures var n := ReadInt2(b);
      n == 256 * (b[0] as int) + b[1] && n < 65536 && [n / 256, n % 256] == b[..2]
  {
  }

  lemma ReadsBytes(n: nat, rest: seq<Byte>)
    requires n < 65536
    ensures ReadInt2([n / 256, n % 256] + rest) == n
  {
  }

  /** A CONNACK has flags and a return code. */
  lemma ConnackIsRead(version: nat, h: Byte, data: seq<Byte>, flags: Byte, code: Byte)
    requires h / 16 == 2
    ensures Build(version, h, data) == Built(Connack(h, flags, code)) <==> [flags, code] <= data
    ensures var r := Build(version, h, data);
      (r == BadPacket || (r.Built? && r.packet.Connack?)) && (r == BadPacket <==> |data| < 2)
  {
  }

  /** A SUBACK has an id and at least one return code. */
  lemma SubackIsRead(version: nat, h: Byte, data: seq<Byte>, id: nat, codes: seq<Byte>)
    requires h / 16 == 9
    ensures Build(version, h, data) == Built(Suback(h, id, codes)) <==>
      id < 65536 && codes != [] && data == [id / 256, id % 256] + codes
    ensures var r := Build(version, h, data);
      (r == BadPacket || (r.Built? && r.packet.Suback?)) && (r == BadPacket <==> |data| < 3)
  {
    if id < 65536 && data == [id / 256, id % 256] + codes {
      assert data[2..] == codes;
    }
    if |data| >= 2 {
      assert data == [data[0], data[1]] + data[2..];
    }
  }

  /** What goes to MQTTPacket_ack has an id, and whatever follows. */
  lemma AckIsRead(version: nat, h: Byte, data: seq<Byte>, id: nat)
    requires 4 <= h / 16 <= 7 || 11 <= h / 16 <= 12
    ensures Build(version, h, data) == Built(Ack(h, id)) <==> id < 65536 && [id / 256, id % 256] <= data
    ensures var r := Build(version, h, data);
      (r == BadPacket || (r.Built? && r.packet.Ack?)) && (r == BadPacket <==> |data| < 2)
  {
  }

  /** No parser is called for any other type. */
  lemma OthersAreNotRead(version: nat, h: Byte, data: seq<Byte>)
    ensures Build(version, h, data) == NoParser <==> h / 16 in {0, 1, 8, 10} || (version < 5 && h / 16 >= 14)
    ensures Build(version, h, data) == PastTable <==> h / 16 == 13 || (version >= 5 && h / 16 >= 14)
  {
  }

  // ----- sent packets

  /** What the client can send through these writers, version 4. */
  datatype Outgoing =
    | SendPublish(dup: nat, qos: nat, retained: nat, topic: seq<Byte>, msgId: nat, payload: seq<Byte>)
    | SendPuback(id: nat)

  function OutHeader(p: Outgoing): Byte {
    match p
    case SendPublish(dup, qos, retained, _, _, _) => HeaderByte(3, dup, qos, retained)
    case SendPuback(_) => HeaderByte(4, 0, 0, 0)
  }

  /** The buffers handed down with the packet: two length bytes, topic, id and payload for a
      PUBLISH (MQTTPacket_send_publish), the id for a PUBACK (MQTTPacket_send_ack). */
  function OutBuffers(p: Outgoing): (r: seq<seq<Byte>>)
    ensures |r| <= 4
  {
    match p
    case SendPublish(_, _, _, topic, msgId, payload) => [Int2(|topic|), topic, Int2(msgId), payload]
    case SendPuback(id) => [Int2(id)]
  }

  /** The packet on the wire: MQTTPacket_sends puts header byte and length in front. */
  function OutFrame(p: Outgoing): Frame {
    var body := Concat(OutBuffers(p));
    Frame([OutHeader(p)] + Digits(|body|), body)
  }

  function OutBody(p: Outgoing): seq<Byte> {
    match p
    case SendPublish(_, _, _, topic, msgId, payload) => Int2(|topic|) + (topic + (Int2(msgId) + payload))
    case SendPuback(id) => Int2(id)
  }

  lemma OutBodyIsConcat(p: Outgoing)
    ensures Concat(OutBuffers(p)) == OutBody(p)
  {
    match p
    case SendPublish(_, _, _, topic, msgId, payload) =>
      var i, j := Int2(|topic|), Int2(msgId);
      assert Concat([payload]) == payload + Concat([]);
      assert [j, payload][1..] == [payload];
      assert Concat([j, payload]) == j + payload;
      assert [topic, j, payload][1..] == [j, payload];
      assert Concat([topic, j, payload]) == topic + (j + payload);
      assert [i, topic, j, payload][1..] == [topic, j, payload];
    case SendPuback(id) =>
      assert Concat([Int2(id)]) == Int2(id) + Concat([]);
  }

  /** The first byte by position: for a PUBLISH the type 3, then DUP in bit 3, the QoS in bits
      2 and 1 and RETAIN in bit 0 (section 3.3.1 of MQTT 3.1.1), for a PUBACK 4 and zeros
      (section 3.4.1). */
  function FirstByte(p: Outgoing): Byte {
    match p
    case SendPublish(dup, qos, retained, _, _, _) =>
      0x30 + (if dup % 2 == 1 then 0x08 else 0) + qos % 4 * 0x02 + (if retained % 2 == 1 then 0x01 else 0)
    case SendPuback(_) => 0x40
  }

  /** The packet a receiver should see. */
  function Expected(p: Outgoing): Packet {
    match p
    case SendPublish(_, _, _, topic, msgId, payload) => Publish(FirstByte(p), topic, msgId, payload)
    case SendPuback(id) => Ack(FirstByte(p), id)
  }

  /** The byte put together from the bit fields is that one. */
  lemma HeaderIsFirstByte(p: Outgoing)
    ensures OutHeader(p) == FirstByte(p)
  {
  }

  /** A PUBLISH with an id, and a 16-bit id. */
  predicate Sendable(p: Outgoing) {
    match p
    case SendPublish(_, qos, _, _, msgId, _) => 1 <= qos <= 2 && msgId < 65536
    case SendPuback(id) => id < 65536
  }

  /** What a caller has to keep to: the topic's length fits two bytes and the packet's fits
      the four length bytes. */
  predicate Fits(p: Outgoing) {
    && (p.SendPublish? ==> |p.topic| <= 65535)
    && |OutBody(p)| <= MAX_REMAINING
  }

  /** A topic of which the length field holds the low 16 bits is read back to that length. */
  lemma TopicRoundTrip(h: Byte, topic: seq<Byte>, rest: seq<Byte>)
    requires QosOf(h) > 0 ==> |rest| >= 2
    ensures |topic| <= 65535 ==>
      ParsePublish(h, Int2(|topic|) + (topic + rest)) ==
        Some(if QosOf(h) == 0 then Publish(h, topic, 0, rest) else Publish(h, topic, ReadInt2(rest), rest[2..]))
    ensures |topic| > 65535 ==>
      var r := ParsePublish(h, Int2(|topic|) + (topic + rest));
      r.Some? ==> r.value.Publish? && |r.value.topic| < |topic|
  {
    var b := Int2(|topic|) + (topic + rest);
    Int2RoundTrip(|topic|, topic + rest);
    if |topic| <= 65535 {
      assert b[2..2 + |topic|] == topic;
      assert b[2 + |topic|..] == rest;
    }
  }

  /** The body is parsed back to what was sent exactly when the topic length fits. */
  lemma BodyRoundTrip(p: Outgoing)
    requires Sendable(p)
    ensures Build(4, OutHeader(p), OutBody(p)) == Built(Expected(p)) <==>
      (p.SendPublish? ==> |p.topic| <= 65535)
  {
    hide Int2, ReadInt2, ParsePublish;
    HeaderIsFirstByte(p);
    match p
    case SendPublish(_, _, _, topic, msgId, payload) =>
      var rest := Int2(msgId) + payload;
      TopicRoundTrip(OutHeader(p), topic, rest);
      Int2RoundTrip(msgId, payload);
      assert rest[2..] == payload;
    case SendPuback(id) =>
      assert Int2(id) + [] == Int2(id);
      Int2RoundTrip(id, []);
  }

  /** Round trip of a whole packet, both ways: the frame read from the front of what is on
      the wire carries the packet that was sent if and only if the packet fits. */
  lemma PacketRoundTrip(p: Outgoing, rest: seq<Byte>)
    requires Sendable(p)
    ensures Fits(p) <==>
      var fs := Parse(OutFrame(p).Bytes() + rest).0;
      && fs != [] && fs[0] == OutFrame(p) && fs[0].header[0] == FirstByte(p)
      && Build(4, fs[0].header[0], fs[0].body) == Built(Expected(p))
  {
    OutBodyIsConcat(p);
    HeaderIsFirstByte(p);
    BodyRoundTrip(p);
    FrameIsFirst(OutHeader(p), OutBody(p), rest);
  }
}
