/** The input half of src/utils/SocketBuffer.c, and what is built on it, as functions that are
    defined in every state and for every order of calls. */
module SocketBuffer {
  import opened Common
  import opened Framing
  import opened Packets

  /** socket_queue: the cached fixed header and the body received so far. */
  datatype RawQueue = RawQueue(
    socket: int, index: nat, headerlen: nat, fixedHeader: seq<Byte>,
    buflen: nat, datalen: nat, buf: seq<Byte>)
  {
    predicate Sized() {
      |fixedHeader| == 5 && index <= headerlen <= 5 && datalen <= buflen <= |buf|
    }

    function Header(): (h: seq<Byte>)
      requires Sized()
    {
      fixedHeader[..headerlen]
    }

    /** What the queue holds of a packet not yet complete. */
    function Partial(): (b: seq<Byte>)
      requires Sized()
    {
      Header() + buf[..datalen]
    }

    /** Body bytes are held only behind a complete header, fewer than it announces, and in a
        buffer already large enough for all of them. */
    ghost predicate Shape() {
      && Sized()
      && (datalen > 0 ==> HeaderComplete(Header()) && datalen < BodyLength(Header()) <= buflen)
    }

    /** A queue put aside until more bytes come. */
    ghost predicate Stored() {
      && Shape() && index == 0 && socket != 0
      && (HeaderPartial(Header()) || (HeaderComplete(Header()) && datalen < BodyLength(Header())))
    }

    /** The default queue between two calls. */
    ghost predicate Clean() {
      Sized() && socket == 0 && headerlen == 0 && datalen == 0
    }
  }

  /** What every queue satisfies, whatever the order of calls. */
  type SocketQueue = q: RawQueue | q.Sized() witness RawQueue(0, 0, 0, [0, 0, 0, 0, 0], 0, 0, [])

  /** def_queue and queues. */
  datatype Buffers = Buffers(def: SocketQueue, queues: seq<SocketQueue>)

  /** SocketBuffer_newDefQ: 1000 bytes are allocated but the recorded length is 0. */
  function NewQueue(): SocketQueue {
    RawQueue(0, 0, 0, [0, 0, 0, 0, 0], 0, 0, seq(1000, _ => 0))
  }

  /** ListFindItem(queues, &socket, socketcompare): no two queues have one socket. */
  function Find(queues: seq<SocketQueue>, s: int): (k: int)
    ensures -1 <= k < |queues|
    ensures k >= 0 ==> queues[k].socket == s && forall j :: 0 <= j < k ==> queues[j].socket != s
    ensures k == -1 ==> forall j :: 0 <= j < |queues| ==> queues[j].socket != s
  {
    if queues == [] then -1
    else if queues[0].socket == s then 0
    else
      var k := Find(queues[1..], s);
      if k < 0 then -1 else k + 1
  }

  function Current(b: Buffers, s: int): SocketQueue {
    var k := Find(b.queues, s);
    if k >= 0 then b.queues[k] else b.def
  }

  /** The queue used for s is replaced by q. */
  function Update(b: Buffers, s: int, q: SocketQueue): (r: Buffers)
    requires Find(b.queues, s) >= 0 ==> q.socket == s
    ensures Find(r.queues, s) == Find(b.queues, s) && Current(r, s) == q
  {
    var k := Find(b.queues, s);
    if k >= 0 then
      FoundAt(b.queues[k := q], s, k);
      b.(queues := b.queues[k := q])
    else b.(def := q)
  }

  lemma FoundAt(queues: seq<SocketQueue>, s: int, k: nat)
    requires k < |queues| && queues[k].socket == s && forall j :: 0 <= j < k ==> queues[j].socket != s
    ensures Find(queues, s) == k
  {
  }

  function Emptied(q: SocketQueue): SocketQueue {
    q.(socket := 0, index := 0, headerlen := 0, datalen := 0)
  }

  datatype CharResult = Char(c: Byte) | CharInterrupted | CharError
  datatype LengthResult = Length(value: nat) | LengthInterrupted | LengthError
  datatype DataResult = Data(bytes: seq<Byte>) | DataInterrupted | DataError
  datatype FactoryResult = Read(built: Built) | Interrupted | SocketError

  function QueuedChar(b: Buffers, s: int): (r: (Buffers, CharResult)) {
    var k := Find(b.queues, s);
    if k < 0 then (b, CharInterrupted)
    else
      var q := b.queues[k];
      if q.index < q.headerlen then
        (b.(queues := b.queues[k := q.(index := q.index + 1)]), Char(q.fixedHeader[q.index]))
      else (b, if q.index > 4 then CharError else CharInterrupted)
  }

  function Cached(q: SocketQueue, c: Byte): SocketQueue {
    if q.index > 4 then q
    else q.(fixedHeader := q.fixedHeader[q.index := c], index := q.index + 1, headerlen := q.index + 1)
  }

  /** SocketBuffer_queueChar: the default queue may be another socket's, and counts as unused
      when its socket is 0. */
  function CharQueued(b: Buffers, s: int, c: Byte): Buffers {
    if Find(b.queues, s) >= 0 then Update(b, s, Cached(Current(b, s), c))
    else if b.def.socket == 0 then b.(def := Cached(b.def.(socket := s, index := 0, datalen := 0), c))
    else if b.def.socket == s then b.(def := Cached(b.def, c))
    else b
  }

  /** SocketBuffer_interrupted. */
  function SetAside(b: Buffers, s: int, n: nat): Buffers
    requires n <= Current(b, s).buflen
  {
    if Find(b.queues, s) >= 0 then Update(b, s, Current(b, s).(index := 0, datalen := n))
    else Buffers(NewQueue(), b.queues + [b.def.(socket := s, index := 0, datalen := n)])
  }

  /** SocketBuffer_complete. */
  function Completed(b: Buffers, s: int): Buffers {
    var k := Find(b.queues, s);
    Buffers(Emptied(Current(b, s)), if k >= 0 then RemoveAt(b.queues, k) else b.queues)
  }

  /** SocketBuffer_cleanup. */
  function Cleaned(b: Buffers, s: int): Buffers {
    var k := Find(b.queues, s);
    Buffers(if b.def.socket == s then Emptied(b.def) else b.def,
      if k >= 0 then RemoveAt(b.queues, k) else b.queues)
  }

  /** What malloc or realloc finds in memory. */
  function Fresh(memory: seq<Byte>, n: nat): (m: seq<Byte>)
    ensures |m| == n
  {
    if |memory| == n then memory else seq(n, _ => 0)
  }

  function Enlarged(q: SocketQueue, bytes: nat, memory: seq<Byte>): SocketQueue {
    if bytes > q.buflen then q.(buf := Fresh(memory, bytes), buflen := bytes) else q
  }

  /** SocketBuffer_getQueuedData: the buffer, and how much it holds already. */
  function WithRoom(b: Buffers, s: int, bytes: nat, memory: seq<Byte>): (r: (Buffers, nat))
    ensures bytes <= Current(r.0, s).buflen && Find(r.0.queues, s) == Find(b.queues, s)
  {
    (Update(b, s, Enlarged(Current(b, s), bytes, memory)), if Find(b.queues, s) >= 0 then Current(b, s).datalen else 0)
  }

  // ----- one attempt to read a packet

  /** What recv may answer. */
  datatype Received = Bytes(data: seq<Byte>) | WouldBlock | Failed | Closed

  /** The state of an attempt: the buffers, the answers recv is still to give and the bytes it
      has delivered. With no answer left, and for bytes not asked for, recv would block. */
  datatype Line = Line(b: Buffers, tape: seq<Received>, heard: seq<Byte>)

  function AnswerTo(tape: seq<Received>, n: nat): (r: Received)
    ensures r.Bytes? ==> 1 <= |r.data| <= n
  {
    if tape == [] || (tape[0].Bytes? && !(1 <= |tape[0].data| <= n)) then WouldBlock else tape[0]
  }

  function Rest(tape: seq<Received>): seq<Received> {
    if tape == [] then [] else tape[1..]
  }

  function BytesOf(r: Received): seq<Byte> {
    if r.Bytes? then r.data else []
  }

  /** Socket_getch. */
  function GotChar(l: Line, s: int): (r: (Line, CharResult)) {
    var (b, c) := QueuedChar(l.b, s);
    if !c.CharInterrupted? then (l.(b := b), c)
    else
      var got, tape := AnswerTo(l.tape, 1), Rest(l.tape);
      var heard := l.heard + BytesOf(got);
      match got
      case Bytes(data) => (Line(CharQueued(b, s, data[0]), tape, heard), Char(data[0]))
      case WouldBlock => (Line(SetAside(b, s, 0), tape, heard), CharInterrupted)
      case _ => (Line(b, tape, heard), CharError)
  }

  /** MQTTPacket_decode with `len` length bytes read. */
  function Decoded(l: Line, s: int, value: nat, multiplier: nat, len: nat): (r: (Line, LengthResult))
    decreases 4 - len
  {
    if len >= 4 then (l, LengthError)
    else
      var (after, got) := GotChar(l, s);
      match got
      case CharInterrupted => (after, LengthInterrupted)
      case CharError => (after, LengthError)
      case Char(c) =>
        var sum := value + c as int % 128 * multiplier;
        if c < 128 then (after, Length(sum)) else Decoded(after, s, sum, multiplier * 128, len + 1)
  }

  function WithData(q: SocketQueue, at: nat, data: seq<Byte>): SocketQueue
    requires at + |data| <= q.buflen
  {
    q.(buf := q.buf[..at] + data + q.buf[at + |data|..])
  }

  /** Socket_getdata. Asking for nothing, recv answers with the end of the stream. */
  function GotData(l: Line, s: int, bytes: nat, memory: seq<Byte>): (r: (Line, DataResult)) {
    if bytes == 0 then (l.(b := Completed(l.b, s)), Data([]))
    else
      var (b, actual) := WithRoom(l.b, s, bytes, memory);
      if actual >= bytes then (l.(b := b), DataError) else Filled(l.(b := b), s, bytes, actual)
  }

  function Filled(l: Line, s: int, bytes: nat, actual: nat): (r: (Line, DataResult))
    requires actual < bytes <= Current(l.b, s).buflen
  {
    var got, tape := AnswerTo(l.tape, bytes - actual), Rest(l.tape);
    var heard := l.heard + BytesOf(got);
    match got
    case Bytes(data) =>
      var q := WithData(Current(l.b, s), actual, data);
      var b := Update(l.b, s, q);
      if actual + |data| == bytes then (Line(Completed(b, s), tape, heard), Data(q.buf[..bytes]))
      else (Line(SetAside(b, s, actual + |data|), tape, heard), DataInterrupted)
    case WouldBlock => (Line(SetAside(l.b, s, actual), tape, heard), DataInterrupted)
    case _ => (Line(l.b, tape, heard), DataError)
  }

  /** MQTTPacket_Factory. */
  function Attempted(version: nat, l: Line, s: int, memory: seq<Byte>): (r: (Line, FactoryResult)) {
    var (l1, first) := GotChar(l, s);
    match first
    case CharInterrupted => (l1, Interrupted)
    case CharError => (l1, SocketError)
    case Char(c) =>
      var (l2, length) := Decoded(l1, s, 0, 1, 0);
      match length
      case LengthInterrupted => (l2, Interrupted)
      case LengthError => (l2, SocketError)
      case Length(n) =>
        var (l3, data) := GotData(l2, s, n, memory);
        match data
        case DataInterrupted => (l3, Interrupted)
        case DataError => (l3, SocketError)
        case Data(body) => (l3, Read(Build(version, c, body)))
  }

  // ----- whole runs

  type Streams = map<int, seq<Byte>>

  /** An attempt comes with the answers recv gives during it, and what is found in memory. */
  datatype Event = Open(s: int) | Attempt(s: int, answers: seq<Received>, memory: seq<Byte>) | Close(s: int)

  /** What comes of an event; an event for a socket in the wrong state is ignored. */
  datatype Outcome = Opened | Shut | Ignored | Result(result: FactoryResult)

  /** The buffers, and the bytes delivered for every open socket since it was opened. */
  datatype System = System(b: Buffers, received: Streams)

  function Step(version: nat, y: System, e: Event): (r: (System, Outcome)) {
    match e
    case Open(s) =>
      if s in y.received then (y, Ignored) else (y.(received := y.received[s := []]), Opened)
    case Close(s) =>
      if s in y.received then (System(Cleaned(y.b, s), y.received - {s}), Shut) else (y, Ignored)
    case Attempt(s, answers, memory) =>
      if s !in y.received then (y, Ignored)
      else
        var (l, r) := Attempted(version, Line(y.b, answers, []), s, memory);
        (System(l.b, y.received[s := y.received[s] + l.heard]), Result(r))
  }

  function Start(): System {
    System(Buffers(NewQueue(), []), map[])
  }

  /** Any run of any events, from the start. */
  function RunOf(version: nat, events: seq<Event>): (r: (System, seq<Outcome>))
    ensures |r.1| == |events|
  {
    if events == [] then (Start(), [])
    else
      var (y, os) := RunOf(version, events[..|events| - 1]);
      var (after, o) := Step(version, y, events[|events| - 1]);
      (after, os + [o])
  }

  /** The packets handed out for a socket since it was last opened. */
  function ResultsOf(events: seq<Event>, outcomes: seq<Outcome>, s: int): (r: seq<Built>)
    requires |events| == |outcomes|
  {
    if events == [] then []
    else
      var n := |events| - 1;
      HandedOut(ResultsOf(events[..n], outcomes[..n], s), events[n], outcomes[n], s)
  }

  function HandedOut(before: seq<Built>, e: Event, o: Outcome, s: int): seq<Built> {
    match (e, o)
    case (Open(t), Opened) => if t == s then [] else before
    case (Attempt(t, _, _), Result(Read(built))) => if t == s then before + [built] else before
    case _ => before
  }

  /** The packets a list of frames stands for. */
  function BuildAll(version: nat, fs: seq<Frame>): (r: seq<Built>)
    requires forall i :: 0 <= i < |fs| ==> fs[i].header != []
    ensures |r| == |fs|
  {
    seq(|fs|, i requires 0 <= i < |fs| => Build(version, fs[i].header[0], fs[i].body))
  }

  /** The open sockets on which an attempt has failed. */
  function FailedOpen(events: seq<Event>, outcomes: seq<Outcome>): (r: set<int>)
    requires |events| == |outcomes|
  {
    if events == [] then {}
    else
      var n := |events| - 1;
      StillFailed(FailedOpen(events[..n], outcomes[..n]), events[n], outcomes[n])
  }

  function StillFailed(before: set<int>, e: Event, o: Outcome): set<int> {
    match (e, o)
    case (Attempt(t, _, _), Result(SocketError)) => before + {t}
    case (Close(t), _) => before - {t}
    case _ => before
  }

  /** One more event. */
  lemma RunStep(version: nat, events: seq<Event>, y: System, os: seq<Outcome>, e: Event, after: System, o: Outcome)
    requires RunOf(version, events) == (y, os) && Step(version, y, e) == (after, o)
    ensures RunOf(version, events + [e]) == (after, os + [o])
    ensures FailedOpen(events + [e], os + [o]) == StillFailed(FailedOpen(events, os), e, o)
  {
    hide Step;
    assert (events + [e])[..|events|] == events && (os + [o])[..|os|] == os;
  }

  lemma ResultsStep(events: seq<Event>, os: seq<Outcome>, e: Event, o: Outcome, s: int)
    requires |events| == |os|
    ensures ResultsOf(events + [e], os + [o], s) == HandedOut(ResultsOf(events, os, s), e, o, s)
  {
    assert (events + [e])[..|events|] == events && (os + [o])[..|os|] == os;
  }

  /** The caller closes a socket on which an attempt has failed before it makes another attempt
      on any, and opens no socket with the number 0. */
  ghost predicate Careful(version: nat, events: seq<Event>) {
    forall i :: 0 <= i < |events| ==>
      && (events[i].Open? ==> events[i].s != 0)
      && (events[i].Attempt? ==> FailedOpen(events[..i], RunOf(version, events[..i]).1) == {})
  }
}
