/** Runs of the read path that do not keep to what a careful caller keeps to, and what exactly
    goes wrong in them. */
module CarelessRuns {
  import opened Common
  import opened Framing
  import opened Packets
  import opened SocketBuffer

  // ----- a socket that fails is left open

  /** When a socket without a queue of its own is read and nothing comes, the header bytes cached
      in the default queue become its own: right exactly when there are none. */
  lemma StaleHeader(version: nat, b: Buffers, t: int, memory: seq<Byte>)
    requires Find(b.queues, t) == -1
    ensures var (after, r) := Attempted(version, Line(b, [], []), t, memory);
      && r == Interrupted && after.heard == [] && Find(after.b.queues, t) >= 0
      && Current(after.b, t).Partial() == b.def.Header()
      && (Current(after.b, t).Partial() == [] <==> b.def.headerlen == 0)
  {
    var q: SocketQueue := b.def.(socket := t, index := 0, datalen := 0);
    FoundAt(b.queues + [q], t, |b.queues|);
    assert q.Partial() == q.Header() == b.def.Header();
  }

  /** One byte and an error: the byte stays in the default queue. */
  lemma ByteThenError()
    ensures var (l, r) := Attempted(4, Line(Start().b, [Bytes([0x30]), Failed], []), 3, []);
      && r == SocketError && l.heard == [0x30] && l.b.queues == []
      && l.b.def == NewQueue().(socket := 3, index := 1, headerlen := 1, fixedHeader := [0x30, 0, 0, 0, 0])
  {
    var l0 := Line(Start().b, [Bytes([0x30]), Failed], []);
    var (l1, c1) := GotChar(l0, 3);
    assert [0, 0, 0, 0, 0][0 := 0x30] == [0x30, 0, 0, 0, 0];
    assert c1 == Char(0x30) && l1.tape == [Failed] && l1.heard == [0x30] && l1.b.queues == [];
    var (l2, c2) := GotChar(l1, 3);
    assert c2 == CharError && l2.heard == [0x30] + [] && l2.b == l1.b;
    assert Decoded(l1, 3, 0, 1, 0) == (l2, LengthError);
  }

  /** A byte cached for another socket in front of the bytes of a PUBACK. */
  lemma StaleAttempt(b: Buffers)
    requires Find(b.queues, 4) == 0 && b.queues[0].index == 0 && b.queues[0].headerlen == 1
    requires b.queues[0].fixedHeader[0] == 0x30 && b.queues[0].datalen == 0
    ensures var (l, r) := Attempted(4, Line(b, [Bytes([0x40]), Bytes([2, 0, 1])], []), 4, []);
      r == Interrupted && l.heard == [0x40, 2, 0, 1]
  {
    var l0 := Line(b, [Bytes([0x40]), Bytes([2, 0, 1])], []);
    var (l1, c1) := GotChar(l0, 4);
    FoundAt(l1.b.queues, 4, 0);
    assert c1 == Char(0x30) && l1.tape == l0.tape && l1.heard == [];
    var (l2, c2) := GotChar(l1, 4);
    assert c2 == Char(0x40) && l2.tape == [Bytes([2, 0, 1])] && l2.heard == [0x40];
    assert Decoded(l1, 4, 0, 1, 0) == (l2, Length(0x40));
    var q := Current(l2.b, 4);
    assert Find(l2.b.queues, 4) == 0 && q.datalen == 0;
    var (b3, actual) := WithRoom(l2.b, 4, 0x40, []);
    assert actual == 0;
    var (l4, r4) := Filled(l2.(b := b3), 4, 0x40, 0);
    assert r4 == DataInterrupted && l4.heard == [0x40] + [2, 0, 1];
  }

  /** Socket 3 delivers the first byte of a PUBLISH and then an error. It stays open, and socket 4
      is read before anything has come, and again when a whole PUBACK has. */
  const FIRST := [Open(3), Open(4), Attempt(3, [Bytes([0x30]), Failed], [])]
  const LEFT_OPEN := FIRST + [Attempt(4, [], [])] + [Attempt(4, [Bytes([0x40]), Bytes([2, 0, 1])], [])]

  lemma AfterFirst() returns (y: System, os: seq<Outcome>)
    ensures RunOf(4, FIRST) == (y, os) && y.received == map[3 := [0x30], 4 := []]
    ensures y.b.queues == [] && y.b.def.headerlen == 1 && y.b.def.fixedHeader[0] == 0x30 && y.b.def.datalen == 0
    ensures FailedOpen(FIRST, os) == {3} && ResultsOf(FIRST, os, 4) == []
  {
    hide Attempted, ResultsOf, FailedOpen, RunOf;
    Nothing();
    ByteThenError();
    var y1 := System(Start().b, map[3 := []]);
    var y2 := System(Start().b, map[3 := [], 4 := []]);
    var l := Attempted(4, Line(Start().b, [Bytes([0x30]), Failed], []), 3, []).0;
    y, os := System(l.b, map[3 := [0x30], 4 := []]), [Opened, Opened, Result(SocketError)];
    assert [] + [Open(3)] == [Open(3)] && [] + [Opened] == [Opened];
    RunStep(4, [], Start(), [], Open(3), y1, Opened);
    ResultsStep([], [], Open(3), Opened, 4);
    assert y1.received[4 := []] == y2.received;
    assert [Open(3)] + [Open(4)] == [Open(3), Open(4)] && [Opened] + [Opened] == [Opened, Opened];
    RunStep(4, [Open(3)], y1, [Opened], Open(4), y2, Opened);
    ResultsStep([Open(3)], [Opened], Open(4), Opened, 4);
    assert y2.received[3] + [0x30] == [0x30] && y2.received[3 := [0x30]] == y.received;
    assert [Open(3), Open(4)] + [FIRST[2]] == FIRST;
    assert [Opened, Opened] + [Result(SocketError)] == os;
    RunStep(4, [Open(3), Open(4)], y2, [Opened, Opened], FIRST[2], y, Result(SocketError));
    ResultsStep([Open(3), Open(4)], [Opened, Opened], FIRST[2], Result(SocketError), 4);
  }

  lemma Nothing()
    ensures RunOf(4, []) == (Start(), []) && FailedOpen([], []) == {}
    ensures forall s :: ResultsOf([], [], s) == []
  {
  }

  /** The PUBACK has arrived and is not handed out: the byte of socket 3 is taken for its first. */
  lemma ErrorLeftOpen()
    ensures var (y, os) := RunOf(4, LEFT_OPEN);
      && 4 in y.received && y.received[4] == [0x40, 2, 0, 1]
      && ResultsOf(LEFT_OPEN, os, 4) == []
      && Parse(y.received[4]) == ([Frame([0x40, 2], [0, 1])], [])
    ensures Build(4, 0x40, [0, 1]) == Built(Ack(0x40, 1))
    ensures !Careful(4, LEFT_OPEN)
  {
    hide Attempted, GotChar, Decoded, GotData, RunOf, ResultsOf, FailedOpen, Parse, Build;
    var y, os := AfterFirst();
    StaleHeader(4, y.b, 4, []);
    StaleQueue(y.b);
    var e1, e2 := Attempt(4, [], []), Attempt(4, [Bytes([0x40]), Bytes([2, 0, 1])], []);
    var (y1, o1) := Step(4, y, e1);
    RunStep(4, FIRST, y, os, e1, y1, o1);
    ResultsStep(FIRST, os, e1, o1, 4);
    assert y1.received[4] == [] + [];
    StaleAttempt(y1.b);
    var (y2, o2) := Step(4, y1, e2);
    RunStep(4, FIRST + [e1], y1, os + [o1], e2, y2, o2);
    ResultsStep(FIRST + [e1], os + [o1], e2, o2, 4);
    assert y1.received[4] + [0x40, 2, 0, 1] == [0x40, 2, 0, 1];
    PubackParses(y2.received[4]);
    assert LEFT_OPEN[..3] == FIRST && LEFT_OPEN[3] == e1;
  }

  lemma PubackParses(b: seq<Byte>)
    requires b == [0x40, 2, 0, 1]
    ensures Parse(b) == ([Frame([0x40, 2], [0, 1])], [])
    ensures Build(4, 0x40, [0, 1]) == Built(Ack(0x40, 1))
  {
    hide Value, HeaderLength, Parse;
    var f := Frame([0x40, 2], [0, 1]);
    SmallLength(f.header);
    ParseNothing(b[4..]);
    ParseStep(f, b[4..]);
    assert f.Bytes() + b[4..] == b && [f] + Parse(b[4..]).0 == [f];
  }

  lemma ParseNothing(b: seq<Byte>)
    requires b == []
    ensures Parse(b) == ([], [])
  {
  }

  lemma SmallLength(h: seq<Byte>)
    requires h == [0x40, 2]
    ensures HeaderComplete(h) && BodyLength(h) == 2
  {
    assert h[1..] == [2] && Value(h[1..]) == 2 + 128 * Value(h[1..][1..]);
  }

  lemma StaleQueue(b: Buffers)
    requires b.queues == []
    ensures var after := Attempted(4, Line(b, [], []), 4, []).0.b;
      && Find(after.queues, 4) == 0 && |after.queues| == 1
      && after.queues[0] == b.def.(socket := 4, index := 0, datalen := 0)
  {
    var q: SocketQueue := b.def.(socket := 4, index := 0, datalen := 0);
    FoundAt([q], 4, 0);
    assert [] + [q] == [q];
  }

  // ----- a socket with the number 0

  /** Two header bytes in a row are both cached exactly when the socket is not 0. */
  lemma HeaderIsKept(b: Buffers, s: int, c: Byte, d: Byte)
    requires b.def.Clean() && Find(b.queues, s) == -1
    ensures CharQueued(CharQueued(b, s, c), s, d).def.Header() == [c, d] <==> s != 0
  {
  }

  /** The first two bytes of a PUBACK come, and later the third. */
  const TWO := [Open(0), Attempt(0, [Bytes([0x40]), Bytes([2])], [])]
  const ZERO := TWO + [Attempt(0, [Bytes([0])], [])]

  /** Of two header bytes only the second is put aside. */
  lemma TwoBytes()
    ensures var (l, r) := Attempted(4, Line(Start().b, [Bytes([0x40]), Bytes([2])], []), 0, []);
      && r == Interrupted && l.heard == [0x40, 2] && |l.b.queues| == 1
      && l.b.queues[0].socket == 0 && l.b.queues[0].index == 0 && l.b.queues[0].headerlen == 1
      && l.b.queues[0].fixedHeader[0] == 2 && l.b.queues[0].datalen == 0
  {
    var l0 := Line(Start().b, [Bytes([0x40]), Bytes([2])], []);
    var (l1, c1) := GotChar(l0, 0);
    assert c1 == Char(0x40) && l1.b.queues == [] && l1.b.def.socket == 0 && l1.b.def.headerlen == 1;
    assert l1.tape == [Bytes([2])] && l1.heard == [0x40] && l1.b.def.datalen == 0;
    var (l2, c2) := GotChar(l1, 0);
    assert c2 == Char(2) && l2.b.queues == [] && l2.b.def.socket == 0 && l2.b.def.headerlen == 1;
    assert l2.tape == [] && l2.heard == [0x40] + [2] && l2.b.def.fixedHeader[0] == 2 && l2.b.def.datalen == 0;
    assert Decoded(l1, 0, 0, 1, 0) == (l2, Length(2));
    var (b3, actual) := WithRoom(l2.b, 0, 2, []);
    assert actual == 0 && b3.queues == [] && b3.def.fixedHeader[0] == 2 && b3.def.headerlen == 1;
    var (l4, r4) := Filled(l2.(b := b3), 0, 2, 0);
    assert r4 == DataInterrupted && |l4.b.queues| == 1;
  }

  /** The length byte is taken for the first byte, and a length of 0 ends the packet. */
  lemma ThirdByte(b: Buffers)
    requires |b.queues| == 1 && b.queues[0].socket == 0 && b.queues[0].index == 0 && b.queues[0].headerlen == 1
    requires b.queues[0].fixedHeader[0] == 2 && b.queues[0].datalen == 0
    ensures var (l, r) := Attempted(4, Line(b, [Bytes([0])], []), 0, []);
      r == Read(NoParser) && l.heard == [0]
  {
    var l0 := Line(b, [Bytes([0])], []);
    FoundAt(b.queues, 0, 0);
    var (l1, c1) := GotChar(l0, 0);
    FoundAt(l1.b.queues, 0, 0);
    assert c1 == Char(2) && l1.tape == l0.tape && l1.heard == [];
    var (l2, c2) := GotChar(l1, 0);
    assert c2 == Char(0) && l2.tape == [] && l2.heard == [0];
    assert Decoded(l1, 0, 0, 1, 0) == (l2, Length(0));
    assert GotData(l2, 0, 0, []) == (l2.(b := Completed(l2.b, 0)), Data([]));
    assert Build(4, 2, []) == NoParser;
  }

  /** No packet is complete, and yet one is handed out, with the length byte for its first. */
  lemma ZeroMisread()
    ensures var (y, os) := RunOf(4, ZERO);
      && 0 in y.received && y.received[0] == [0x40, 2, 0]
      && ResultsOf(ZERO, os, 0) == [NoParser]
      && Parse(y.received[0]).0 == []
    ensures !Careful(4, ZERO)
  {
    hide Attempted, GotChar, Decoded, GotData, RunOf, ResultsOf, FailedOpen, Build;
    Nothing();
    TwoBytes();
    var y1 := System(Start().b, map[0 := []]);
    assert [] + [Open(0)] == [Open(0)] && [] + [Opened] == [Opened];
    RunStep(4, [], Start(), [], Open(0), y1, Opened);
    ResultsStep([], [], Open(0), Opened, 0);
    var (y2, o2) := Step(4, y1, TWO[1]);
    assert y2.received[0] == [] + [0x40, 2];
    assert [Open(0)] + [TWO[1]] == TWO;
    RunStep(4, [Open(0)], y1, [Opened], TWO[1], y2, o2);
    ResultsStep([Open(0)], [Opened], TWO[1], o2, 0);
    ThirdByte(y2.b);
    var e3 := Attempt(0, [Bytes([0])], []);
    var (y3, o3) := Step(4, y2, e3);
    assert y3.received[0] == [0x40, 2] + [0];
    RunStep(4, TWO, y2, [Opened] + [o2], e3, y3, o3);
    ResultsStep(TWO, [Opened] + [o2], e3, o3, 0);
    ShortPuback(y3.received[0]);
    assert ZERO[0] == Open(0);
  }

  lemma ShortPuback(b: seq<Byte>)
    requires b == [0x40, 2, 0]
    ensures Parse(b).0 == []
  {
    SmallLength(b[..2]);
  }
}
