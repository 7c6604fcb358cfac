/** The resumable non-blocking read path: the input half of src/utils/SocketBuffer.c,
    Socket_getch and Socket_getdata of src/utils/Socket.c, MQTTPacket_decode and
    MQTTPacket_Factory of src/MQTTPacket.c, without WebSocket framing. */
module ReadPath {
  import opened Common
  import opened Framing
  import opened Packets
  import opened SocketBuffer

  lemma StoredIsIncomplete(q: SocketQueue)
    requires q.Stored()
    ensures Incomplete(q.Partial())
  {
    var h, b := q.Header(), q.buf[..q.datalen];
    if HeaderComplete(h) {
      HeaderLengthOfHeader(h, b);
    } else {
      assert q.Partial() == h;
    }
  }

  /** A complete header inside a longer cached one would have ended it. */
  lemma CompletePrefixIsAll(h: seq<Byte>, whole: seq<Byte>)
    requires h <= whole && HeaderComplete(h)
    requires HeaderPartial(whole) || HeaderComplete(whole)
    ensures h == whole
  {
    assert whole == h + whole[|h|..];
    HeaderLengthOfHeader(h, whole[|h|..]);
  }

  /** One more length byte ends a partial header or prolongs it. */
  lemma HeaderGrows(h: seq<Byte>, c: Byte)
    requires HeaderPartial(h) && |h| >= 1
    ensures c < 128 ==> HeaderComplete(h + [c])
    ensures c >= 128 && |h| < 4 ==> HeaderPartial(h + [c])
    ensures Value((h + [c])[1..]) == Value(h[1..]) + (c % 128) * Power128(|h| - 1)
  {
    ValueSnoc(h[1..], c);
    assert (h + [c])[1..] == h[1..] + [c];
  }

  /** An answer of recv to a request for at most `asked` bytes of a socket. */
  datatype Answer = Answer(socket: int, asked: nat, what: Received)

  /** The bytes a list of answers delivers. */
  function Delivered(answers: seq<Answer>): (b: seq<Byte>) {
    if answers == [] then []
    else
      Delivered(answers[..|answers| - 1]) + BytesOf(answers[|answers| - 1].what)
  }

  lemma {:induction false} DeliveredAppend(a: seq<Answer>, b: seq<Answer>)
    ensures Delivered(a + b) == Delivered(a) + Delivered(b)
  {
    if b == [] {
      assert a + b == a;
    } else {
      assert (a + b)[..|a + b| - 1] == a + b[..|b| - 1];
      DeliveredAppend(a, b[..|b| - 1]);
    }
  }

  /** The last answer gave nothing, or less than asked: there is no more for now. */
  predicate Waits(answers: seq<Answer>) {
    answers != [] && var last := answers[|answers| - 1];
    last.what.WouldBlock? || (last.what.Bytes? && |last.what.data| < last.asked)
  }

  /** The last answer is an error or the end of the stream. */
  predicate Ends(answers: seq<Answer>) {
    answers != [] && var last := answers[|answers| - 1].what; last.Failed? || last.Closed?
  }

  /** The four length bytes behind the completed frames all ask for another. */
  ghost predicate Malformed(received: seq<Byte>, frames: seq<Frame>) {
    var n := |Wire(frames)|;
    |received| >= n + 5 && HeaderLength(received[n..]) == 0
  }

  ghost predicate NotQueued(queues: seq<SocketQueue>, s: int) {
    forall i :: 0 <= i < |queues| ==> queues[i].socket != s
  }

  ghost predicate OnePerSocket(queues: seq<SocketQueue>) {
    forall i, j :: 0 <= i < j < |queues| ==> queues[i].socket != queues[j].socket
  }

  type Histories = map<int, seq<Frame>>

  /** The bytes delivered per open socket, every answer of recv, and the bytes delivered during
      the present attempt. */
  datatype Net = Net(received: Streams, answers: seq<Answer>, heard: seq<Byte>)

  /** Between two moments recv was asked for s only, and s has received exactly the bytes it
      delivered. */
  ghost predicate Heard(was: Net, now: Net, s: int) {
    && was.answers <= now.answers && s in was.received
    && var more := now.answers[|was.answers|..];
    && (forall i :: 0 <= i < |more| ==> more[i].socket == s)
    && now.received == was.received[s := was.received[s] + Delivered(more)]
    && now.heard == was.heard + Delivered(more)
  }

  lemma HeardNothing(net: Net, s: int)
    requires s in net.received
    ensures Heard(net, net, s)
  {
    assert net.answers[|net.answers|..] == [];
    assert net.received[s] + [] == net.received[s] && net.heard + [] == net.heard;
    assert net.received[s := net.received[s]] == net.received;
  }

  lemma HeardIsLonger(was: Net, now: Net, s: int)
    requires Heard(was, now, s)
    ensures |was.answers| <= |now.answers|
  {
  }

  lemma HeardTwice(a: Net, b: Net, c: Net, s: int)
    requires Heard(a, b, s) && Heard(b, c, s)
    ensures Heard(a, c, s)
    ensures c.answers[|a.answers|..] == b.answers[|a.answers|..] + c.answers[|b.answers|..]
  {
    hide Delivered;
    var x, y := b.answers[|a.answers|..], c.answers[|b.answers|..];
    assert c.answers[|a.answers|..] == x + y;
    DeliveredAppend(x, y);
    assert a.received[s] + Delivered(x) + Delivered(y) == a.received[s] + Delivered(x + y);
    assert a.heard + Delivered(x) + Delivered(y) == a.heard + Delivered(x + y);
  }

  /** Every open socket except `but`: the bytes recv has delivered are the completed frames
      followed by what its queue holds, and nothing when it has no queue. */
  ghost predicate Accounted(queues: seq<SocketQueue>, received: Streams, frames: Histories, but: int) {
    && received.Keys == frames.Keys && 0 !in received
    && OnePerSocket(queues)
    && (forall t :: t in frames ==> AllWellFormed(frames[t]))
    && (forall i :: 0 <= i < |queues| ==> queues[i].socket in received)
    && (forall i :: 0 <= i < |queues| && queues[i].socket != but ==>
          && queues[i].Stored()
          && received[queues[i].socket] == Wire(frames[queues[i].socket]) + queues[i].Partial())
    && (forall t :: t in received && t != but && NotQueued(queues, t) ==> received[t] == Wire(frames[t]))
  }

  // ----- what a change to the queue or the history of one socket s leaves accounted for

  lemma UpdateKeepsOthers(queues: seq<SocketQueue>, k: nat, q: SocketQueue,
                          received: Streams, frames: Histories, s: int)
    requires Accounted(queues, received, frames, s)
    requires k < |queues| && queues[k].socket == q.socket == s
    ensures Accounted(queues[k := q], received, frames, s)
  {
    var qs := queues[k := q];
    forall t | t in received && t != s && NotQueued(qs, t)
      ensures received[t] == Wire(frames[t])
    {
      forall i | 0 <= i < |queues| ensures queues[i].socket != t {
        assert qs[i].socket == queues[i].socket;
      }
    }
  }

  lemma HistoryKeepsOthers(queues: seq<SocketQueue>, received: Streams, frames: Histories, s: int,
                           b: seq<Byte>, fs: seq<Frame>)
    requires Accounted(queues, received, frames, s) && s in received && AllWellFormed(fs)
    ensures Accounted(queues, received[s := b], frames[s := fs], s)
  {
  }

  lemma AppendKeepsOthers(queues: seq<SocketQueue>, q: SocketQueue, received: Streams, frames: Histories, s: int)
    requires Accounted(queues, received, frames, s) && s in received
    requires q.socket == s && NotQueued(queues, s)
    ensures Accounted(queues + [q], received, frames, s)
  {
    var qs := queues + [q];
    forall t | t in received && t != s && NotQueued(qs, t)
      ensures received[t] == Wire(frames[t])
    {
      forall i | 0 <= i < |queues| ensures queues[i].socket != t {
        assert qs[i] == queues[i];
      }
    }
  }

  lemma RemoveKeepsOthers(queues: seq<SocketQueue>, k: nat, received: Streams, frames: Histories, s: int)
    requires Accounted(queues, received, frames, s)
    requires k < |queues| && queues[k].socket == s
    ensures Accounted(RemoveAt(queues, k), received, frames, s)
    ensures NotQueued(RemoveAt(queues, k), s)
  {
    hide Wire, AllWellFormed, RawQueue.Stored, RawQueue.Partial;
    var qs := RemoveAt(queues, k);
    forall t | t in received && t != s && NotQueued(qs, t)
      ensures received[t] == Wire(frames[t])
    {
      forall i | 0 <= i < |queues| ensures queues[i].socket != t {
        if i != k {
          assert qs[if i < k then i else i - 1] == queues[i];
        }
      }
    }
  }

  /** With s itself in order again, everything is. */
  lemma AllAccounted(queues: seq<SocketQueue>, k: int, received: Streams, frames: Histories, s: int)
    requires Accounted(queues, received, frames, s) && s in received
    requires -1 <= k < |queues|
    requires k == -1 ==> NotQueued(queues, s) && received[s] == Wire(frames[s])
    requires k >= 0 ==> queues[k].socket == s && queues[k].Stored()
    requires k >= 0 ==> received[s] == Wire(frames[s]) + queues[k].Partial()
    ensures Accounted(queues, received, frames, 0)
  {
  }

  /** The buffers, and what has been received, completed and answered so far. */
  datatype Snapshot = Snapshot(b: Buffers, received: Streams, frames: Histories, answers: seq<Answer>) {
    function Sys(): System {
      System(b, received)
    }
  }

  class SocketReader {
    var defQueue: SocketQueue
    var queues: seq<SocketQueue>

    /** What recv will answer during the present attempt, and what malloc will find. */
    var tape: seq<Received>
    var memory: seq<Byte>

    /** For each open socket, all bytes recv has delivered since it was opened and all frames
        completed; and every answer of recv. */
    ghost var received: Streams
    ghost var frames: Histories
    ghost var answers: seq<Answer>
    ghost var heard: seq<Byte>

    function Held(): Buffers
      reads this
    {
      Buffers(defQueue, queues)
    }

    ghost function Now(): Line
      reads this
    {
      Line(Held(), tape, heard)
    }

    ghost function Seen(): Snapshot
      reads this
    {
      Snapshot(Held(), received, frames, answers)
    }

    lemma SameKeys(failed: Option<int>)
      requires Ready(failed)
      ensures received.Keys == frames.Keys && (failed.Some? ==> failed.value in received)
    {
    }

    ghost function Traffic(): Net
      reads this
    {
      Net(received, answers, heard)
    }

    /** Between calls. */
    ghost predicate Valid()
      reads this
    {
      defQueue.Clean() && Accounted(queues, received, frames, 0)
    }

    ghost predicate Located(s: int, i: int)
      reads this
    {
      && -1 <= i < |queues| && s in received && s != 0
      && OnePerSocket(queues)
      && (i >= 0 ==> queues[i].socket == s && defQueue.Clean())
      && (i == -1 ==> NotQueued(queues, s))
    }

    ghost function Active(i: int): SocketQueue
      requires -1 <= i < |queues|
      reads this
    {
      if i >= 0 then queues[i] else defQueue
    }

    /** During a call for s, whose queue is at position i (-1: the default queue), after the
        header bytes h have been handed out. */
    ghost predicate Reached(s: int, i: int, h: seq<Byte>)
      reads this
    {
      && Located(s, i)
      && Accounted(queues, received, frames, s)
      && var q := Active(i);
      && q.Shape()
      && |h| == q.index && h == q.fixedHeader[..q.index]
      && (q.index == q.headerlen || HeaderPartial(q.Header()) || HeaderComplete(q.Header()))
      && (i == -1 ==> (q.socket == s || (q.Clean() && h == [])) && q.headerlen == q.index && q.datalen == 0)
    }

    /** And every byte delivered is in a completed frame or in the queue. */
    ghost predicate Working(s: int, i: int, h: seq<Byte>)
      reads this
    {
      Reached(s, i, h) && received[s] == Wire(frames[s]) + Active(i).Partial()
    }

    /** After an error on s: the frames completed are those in its bytes, but what came behind
        them may be in the default queue, for the next socket to use. */
    ghost predicate Failing(s: int)
      reads this
    {
      && s != 0 && s in received
      && Accounted(queues, received, frames, s)
      && (defQueue.Clean() || defQueue.socket == s)
      && Wire(frames[s]) <= received[s] && Incomplete(received[s][|Wire(frames[s])|..])
    }

    lemma Fails(s: int, rest: seq<Byte>)
      requires s != 0 && s in received && Accounted(queues, received, frames, s)
      requires defQueue.Clean() || defQueue.socket == s
      requires received[s] == Wire(frames[s]) + rest && Incomplete(rest)
      ensures Failing(s)
    {
      assert received[s][|Wire(frames[s])|..] == rest;
    }

    /** Between two events: in order, or after an error on a socket that is still open. */
    ghost predicate Ready(failed: Option<int>)
      reads this
    {
      if failed.Some? then Failing(failed.value) else Valid()
    }

    constructor ()
      ensures Valid() && Held() == Start().b && received == map[] && frames == map[] && answers == []
    {
      defQueue, queues, tape, memory := NewQueue(), [], [], [];
      received, frames, answers, heard := map[], map[], [], [];
    }

    /** A socket is opened: no byte has come yet. */
    ghost method Open(s: int, failed: Option<int>)
      requires Ready(failed) && s != 0 && s !in received
      modifies this`received, this`frames
      ensures Ready(failed) && received == old(received)[s := []] && frames == old(frames)[s := []]
    {
      received := received[s := []];
      frames := frames[s := []];
    }

    /** recv for at most n bytes: whatever it delivers has been received. */
    method Recv(s: int, n: nat) returns (r: Received)
      requires n > 0 && s in received
      modifies this`tape, this`heard, this`received, this`answers
      ensures r == AnswerTo(old(tape), n) && tape == Rest(old(tape)) && heard == old(heard) + BytesOf(r)
      ensures answers == old(answers) + [Answer(s, n, r)]
      ensures received == if r.Bytes? then old(received)[s := old(received[s]) + r.data] else old(received)
      ensures Heard(old(Traffic()), Traffic(), s)
    {
      r := if tape == [] then WouldBlock else tape[0];
      if r.Bytes? && !(1 <= |r.data| <= n) {
        r := WouldBlock;
      }
      if tape != [] {
        tape := tape[1..];
      }
      answers, heard := answers + [Answer(s, n, r)], heard + BytesOf(r);
      if r.Bytes? {
        received := received[s := received[s] + r.data];
      }
      OneAnswer(old(Traffic()), s, n, r);
    }

    lemma OneAnswer(was: Net, s: int, n: nat, r: Received)
      requires s in was.received && answers == was.answers + [Answer(s, n, r)]
      requires received ==
        if r.Bytes? then was.received[s := was.received[s] + r.data] else was.received
      requires heard == was.heard + BytesOf(r)
      ensures Heard(was, Traffic(), s)
    {
      var more := answers[|was.answers|..];
      assert more == [Answer(s, n, r)] && more[..0] == [];
      assert Delivered(more) == BytesOf(r);
      assert was.received[s] + [] == was.received[s];
      assert was.received[s := was.received[s]] == was.received;
    }

    /** ListFindItem(queues, &socket, socketcompare). */
    method QueueOf(s: int) returns (k: int)
      ensures -1 <= k < |queues| && k == Find(queues, s)
      ensures k >= 0 ==> queues[k].socket == s
      ensures k == -1 ==> NotQueued(queues, s)
    {
      k := 0;
      while k < |queues|
        invariant 0 <= k <= |queues|
        invariant forall j :: 0 <= j < k ==> queues[j].socket != s
      {
        if queues[k].socket == s {
          FoundAt(queues, s, k);
          return;
        }
        k := k + 1;
      }
      k := -1;
    }

    // ----- src/utils/SocketBuffer.c, in any state

    /** SocketBuffer_getQueuedChar. */
    method GetQueuedChar(s: int) returns (r: CharResult)
      modifies this`queues
      ensures (Held(), r) == QueuedChar(old(Held()), s)
    {
      var k := QueueOf(s);
      r := CharInterrupted;
      if k >= 0 {
        var q := queues[k];
        if q.index < q.headerlen {
          r := Char(q.fixedHeader[q.index]);
          queues := queues[k := q.(index := q.index + 1)];
        } else if q.index > 4 {
          r := CharError;
        }
      }
    }

    /** SocketBuffer_queueChar. */
    method QueueChar(s: int, c: Byte)
      modifies this`queues, this`defQueue
      ensures Held() == CharQueued(old(Held()), s, c)
    {
      var error := false;
      var k := QueueOf(s);
      if k < 0 {
        if defQueue.socket == 0 {
          defQueue := defQueue.(socket := s, index := 0, datalen := 0);
        } else if defQueue.socket != s {
          error := true;
        }
      }
      var curq: SocketQueue := if k >= 0 then queues[k] else defQueue;
      if curq.index > 4 {
        error := true;
      }
      if !error {
        var header := curq.fixedHeader[curq.index := c];
        curq := curq.(fixedHeader := header, index := curq.index + 1, headerlen := curq.index + 1);
        if k >= 0 {
          queues := queues[k := curq];
        } else {
          defQueue := curq;
        }
      }
    }

    /** SocketBuffer_interrupted. */
    method Interrupt(s: int, n: nat)
      requires n <= Current(Held(), s).buflen
      modifies this`queues, this`defQueue
      ensures Held() == SetAside(old(Held()), s, n)
    {
      var k := QueueOf(s);
      if k < 0 {
        k := |queues|;
        queues := queues + [defQueue.(socket := s)];
        defQueue := NewQueue();
      }
      queues := queues[k := queues[k].(index := 0, datalen := n)];
    }

    /** SocketBuffer_complete. */
    method Complete(s: int)
      modifies this`queues, this`defQueue
      ensures Held() == Completed(old(Held()), s)
    {
      var k := QueueOf(s);
      if k >= 0 {
        defQueue := queues[k];
        queues := RemoveAt(queues, k);
      }
      defQueue := Emptied(defQueue);
    }

    /** SocketBuffer_getQueuedData; realloc and malloc leave what `memory` says. */
    method GetQueuedData(s: int, bytes: nat) returns (actual: nat)
      modifies this`queues, this`defQueue
      ensures (Held(), actual) == WithRoom(old(Held()), s, bytes, memory)
    {
      var k := QueueOf(s);
      var queue: SocketQueue := defQueue;
      actual := 0;
      if k >= 0 {
        queue := queues[k];
        actual := queue.datalen;
      }
      if bytes > queue.buflen {
        queue := queue.(buf := Fresh(memory, bytes), buflen := bytes);
        if k >= 0 {
          queues := queues[k := queue];
        } else {
          defQueue := queue;
        }
      }
      assert k >= 0 ==> queues == old(queues)[k := queues[k]];
    }

    /** SocketBuffer_cleanup, the input half. */
    method CleanUp(s: int)
      modifies this`queues, this`defQueue
      ensures Held() == Cleaned(old(Held()), s)
    {
      var k := QueueOf(s);
      if k >= 0 {
        queues := RemoveAt(queues, k);
      }
      if defQueue.socket == s {
        defQueue := Emptied(defQueue);
      }
    }

    /** What recv delivers is written behind the bytes already in the buffer. */
    method Put(s: int, at: nat, data: seq<Byte>)
      requires at + |data| <= Current(Held(), s).buflen
      modifies this`queues, this`defQueue
      ensures Held() == Update(old(Held()), s, WithData(Current(old(Held()), s), at, data))
    {
      var k := QueueOf(s);
      var queue: SocketQueue := if k >= 0 then queues[k] else defQueue;
      var after: SocketQueue := queue.(buf := queue.buf[..at] + data + queue.buf[at + |data|..]);
      if k >= 0 {
        queues := queues[k := after];
      } else {
        defQueue := after;
      }
    }

    // ----- what these do when everything is in order

    lemma Here(s: int, i: int)
      requires Located(s, i)
      ensures Find(queues, s) == i && Current(Held(), s) == Active(i)
    {
    }

    /** Replaying one byte of the cached header. */
    method Replay(s: int, ghost i: int, ghost h: seq<Byte>) returns (r: CharResult)
      requires Working(s, i, h)
      modifies this`queues
      ensures r.Char? ==> Working(s, i, h + [r.c]) && old(Active(i)).index < old(Active(i)).headerlen
      ensures !r.Char? ==> queues == old(queues)
      ensures r.CharInterrupted? ==> Active(i).index == Active(i).headerlen && (i >= 0 ==> |h| <= 4)
      ensures r.CharError? ==> |h| > 4
      ensures (Held(), r) == QueuedChar(old(Held()), s)
    {
      hide Find, Wire;
      Here(s, i);
      ghost var q := Active(i);
      r := GetQueuedChar(s);
      if r.Char? {
        UpdateKeepsOthers(old(queues), i, q.(index := q.index + 1), received, frames, s);
        assert q.fixedHeader[..q.index + 1] == h + [r.c];
      }
    }

    /** A byte just received is cached, so that it is no longer in hand only. */
    method CacheChar(s: int, c: Byte, ghost i: int, ghost h: seq<Byte>)
      requires Reached(s, i, h)
      requires Active(i).index == Active(i).headerlen <= 4 && Active(i).datalen == 0
      requires received[s] == Wire(frames[s]) + (Active(i).Partial() + [c])
      modifies this`queues, this`defQueue
      ensures Working(s, i, h + [c])
      ensures Active(i).index == Active(i).headerlen && Active(i).datalen == 0
      ensures Held() == CharQueued(old(Held()), s, c)
    {
      hide Find, Wire;
      Here(s, i);
      ghost var was := Active(i);
      QueueChar(s, c);
      if i >= 0 {
        UpdateKeepsOthers(old(queues), i, Cached(was, c), received, frames, s);
      }
      assert Active(i).Header() == was.Header() + [c];
      assert Active(i).Partial() == was.Partial() + [c];
    }

    /** The queue is put aside with n body bytes in it. */
    method PutAside(s: int, n: nat, ghost i: int)
      requires Located(s, i) && Accounted(queues, received, frames, s)
      requires i == -1 ==> defQueue.socket == s || defQueue.Clean()
      requires Active(i).(socket := s, index := 0, datalen := n).Stored()
      requires received[s] == Wire(frames[s]) + Active(i).(socket := s, index := 0, datalen := n).Partial()
      requires n <= Current(Held(), s).buflen
      modifies this`queues, this`defQueue
      ensures Valid()
      ensures Held() == SetAside(old(Held()), s, n)
    {
      hide Find, Wire, RawQueue.Stored, RawQueue.Partial;
      Here(s, i);
      ghost var put := Active(i).(socket := s, index := 0, datalen := n);
      Interrupt(s, n);
      if i >= 0 {
        UpdateKeepsOthers(old(queues), i, put, received, frames, s);
        AllAccounted(queues, i, received, frames, s);
      } else {
        AppendKeepsOthers(old(queues), put, received, frames, s);
        AllAccounted(queues, |old(queues)|, received, frames, s);
        NewIsClean();
      }
    }

    lemma NewIsClean()
      ensures NewQueue().Clean()
    {
    }

    /** With its packet complete a socket has no queue, and the default queue is clean again. */
    method Finish(s: int, ghost i: int)
      requires Located(s, i) && Accounted(queues, received, frames, s)
      requires i == -1 ==> defQueue.socket == s || defQueue.Clean()
      requires received[s] == Wire(frames[s])
      modifies this`queues, this`defQueue
      ensures Valid()
      ensures Held() == Completed(old(Held()), s)
      ensures defQueue.buf == old(Active(i)).buf
    {
      hide Find, Wire;
      Here(s, i);
      Complete(s);
      if i >= 0 {
        RemoveKeepsOthers(old(queues), i, received, frames, s);
      }
      AllAccounted(queues, -1, received, frames, s);
    }

    /** A buffer with room for `bytes`. When it must grow while already holding body bytes, the
        old memory is released before it is copied and nothing can be said of the contents:
        `lost`. */
    method MakeRoom(s: int, bytes: nat, ghost i: int) returns (actual: nat, ghost lost: bool)
      requires Located(s, i) && Accounted(queues, received, frames, s)
      requires i == -1 ==> defQueue.datalen == 0
      modifies this`queues, this`defQueue
      ensures Located(s, i) && Accounted(queues, received, frames, s)
      ensures actual == old(Active(i)).datalen
      ensures bytes <= Active(i).buflen
      ensures Active(i) == old(Active(i)).(buf := Active(i).buf, buflen := Active(i).buflen)
      ensures lost <==> bytes > old(Active(i)).buflen && old(Active(i)).datalen > 0
      ensures !lost ==> old(Active(i)).buflen <= Active(i).buflen
      ensures !lost ==> Active(i).buf[..actual] == old(Active(i)).buf[..actual]
      ensures (Held(), actual) == WithRoom(old(Held()), s, bytes, memory)
    {
      hide Find, Wire;
      Here(s, i);
      ghost var q := Active(i);
      lost := bytes > q.buflen && q.datalen > 0;
      actual := GetQueuedData(s, bytes);
      if i >= 0 {
        UpdateKeepsOthers(old(queues), i, Enlarged(q, bytes, memory), received, frames, s);
      }
    }

    /** Socket_getch: the next byte of the fixed header, cached or fresh. */
    method Getch(s: int, ghost i: int, ghost h: seq<Byte>) returns (r: CharResult)
      requires Working(s, i, h) && HeaderPartial(h)
      modifies this`queues, this`defQueue, this`received, this`answers, this`tape, this`heard
      ensures Heard(old(Traffic()), Traffic(), s)
      ensures r.Char? ==> Working(s, i, h + [r.c])
      ensures r.CharInterrupted? ==> Valid() && Waits(answers[|old(answers)|..])
      ensures r.CharError? ==> Failing(s) && Ends(answers[|old(answers)|..])
      ensures (Now(), r) == GotChar(old(Now()), s)
    {
      hide Wire, Accounted, QueuedChar, CharQueued, SetAside, Heard, Incomplete;
      HeardNothing(Traffic(), s);
      r := Replay(s, i, h);
      if !r.CharInterrupted? {
        return;
      }
      assert Active(i).Header() == h && Active(i).Partial() == h;
      ghost var before, was := received, answers;
      var got := Recv(s, 1);
      StillReached(before, s, i, h);
      FailsInHeader(s, i, h, before, got);
      match got
      case Bytes(data) =>
        assert data == [data[0]];
        assert before[s] + data == Wire(frames[s]) + (h + data);
        CacheChar(s, data[0], i, h);
        r := Char(data[0]);
      case WouldBlock =>
        PutAside(s, 0, i);
      case Failed =>
        r := CharError;
      case Closed =>
        r := CharError;
    }

    /** A partial header is incomplete. */
    lemma FailsInHeader(s: int, i: int, h: seq<Byte>, before: Streams, got: Received)
      requires Reached(s, i, h) && HeaderPartial(h) && Active(i).Partial() == h
      requires s in before && before[s] == Wire(frames[s]) + h
      requires received == if got.Bytes? then before[s := before[s] + got.data] else before
      ensures !got.Bytes? ==> Failing(s)
    {
      hide Wire;
      if !got.Bytes? {
        Fails(s, h);
      }
    }

    /** Bytes that arrive for s change nothing else. */
    lemma StillReached(before: Streams, s: int, i: int, h: seq<Byte>)
      requires Located(s, i) && s in before && Accounted(queues, before, frames, s)
      requires received == before[s := received[s]]
      ensures Accounted(queues, received, frames, s)
    {
      HistoryKeepsOthers(queues, before, frames, s, received[s], frames[s]);
      assert frames[s := frames[s]] == frames;
    }

    /** What a length byte c read behind h does to the header and to its value. */
    lemma LengthByte(s: int, i: int, h: seq<Byte>, c: Byte)
      requires HeaderPartial(h) && |h| >= 1 && Working(s, i, h + [c])
      ensures Value((h + [c])[1..]) == Value(h[1..]) + (c % 128) * Power128(|h| - 1)
      ensures c < 128 ==> HeaderComplete(h + [c]) && Active(i).Header() == h + [c]
      ensures c >= 128 && |h| < 4 ==> HeaderPartial(h + [c])
      ensures c >= 128 && |h| == 4 ==> HeaderLength(h + [c]) == 0
    {
      HeaderGrows(h, c);
      var q := Active(i);
      if c < 128 && q.index < q.headerlen {
        CompletePrefixIsAll(h + [c], q.Header());
      }
    }

    /** One more length byte: it ends the header, prolongs it, or is the fourth to ask for
        another. */
    method LengthChar(s: int, ghost i: int, ghost h: seq<Byte>) returns (r: CharResult)
      requires Working(s, i, h) && HeaderPartial(h) && |h| >= 1
      modifies this`queues, this`defQueue, this`received, this`answers, this`tape, this`heard
      ensures Heard(old(Traffic()), Traffic(), s)
      ensures r.Char? ==> Value((h + [r.c])[1..]) == Value(h[1..]) + (r.c % 128) * Power128(|h| - 1)
      ensures r.Char? && r.c < 128 ==>
        Working(s, i, h + [r.c]) && HeaderComplete(h + [r.c]) && Active(i).Header() == h + [r.c]
      ensures r.Char? && r.c >= 128 && |h| < 4 ==> Working(s, i, h + [r.c]) && HeaderPartial(h + [r.c])
      ensures r.Char? && r.c >= 128 && |h| == 4 ==> Failing(s) && FailedFor(s, |old(answers)|)
      ensures r.CharInterrupted? ==> Valid() && Waits(answers[|old(answers)|..])
      ensures r.CharError? ==> Failing(s) && FailedFor(s, |old(answers)|)
      ensures (Now(), r) == GotChar(old(Now()), s)
    {
      hide Accounted, OnePerSocket, NotQueued, Wire, Malformed, Value, HeaderLength, GotChar;
      ghost var was := Traffic();
      r := Getch(s, i, h);
      HeardIsLonger(was, Traffic(), s);
      if r.Char? {
        LengthByte(s, i, h, r.c);
        if r.c >= 128 && |h| == 4 {
          NoFifthByte(s, i, h + [r.c]);
        }
      }
    }

    /** What a result of MQTTPacket_decode means, given how many answers came before it. */
    ghost predicate LengthRead(s: int, i: int, h: seq<Byte>, r: LengthResult, since: nat)
      requires since <= |answers|
      reads this
    {
      match r
      case Length(value) =>
        Working(s, i, h) && HeaderComplete(h) && value == BodyLength(h) && Active(i).Header() == h
      case LengthInterrupted => Valid() && Waits(answers[since..])
      case LengthError => Failing(s) && FailedFor(s, since)
    }

    /** MQTTPacket_decode: the remaining length, at most four bytes of it. It fails only with
        recv, or when the fourth length byte asks for another. */
    method Decode(s: int, ghost i: int, first: Byte) returns (r: LengthResult, ghost h: seq<Byte>)
      requires Working(s, i, [first])
      modifies this`queues, this`defQueue, this`received, this`answers, this`tape, this`heard
      ensures Heard(old(Traffic()), Traffic(), s) && |old(answers)| <= |answers|
      ensures LengthRead(s, i, h, r, |old(answers)|) && h != [] && h[0] == first
      ensures (Now(), r) == Decoded(old(Now()), s, 0, 1, 0)
    {
      hide Decoded, GotChar, Accounted, Wire, Heard, Malformed, Waits, Ends, Incomplete;
      hide SocketReader.Failing, SocketReader.FailedFor, SocketReader.Valid;
      var value: nat, multiplier: nat, len: nat := 0, 1, 0;
      h := [first];
      r := LengthError;
      HeardNothing(Traffic(), s);
      var more := true;
      while more
        invariant Heard(old(Traffic()), Traffic(), s) && |old(answers)| <= |answers| && h != [] && h[0] == first
        invariant more ==> Working(s, i, h) && len < 4 && |h| == len + 1 && HeaderPartial(h)
        invariant more ==> value == Value(h[1..]) && multiplier == Power128(len)
        invariant !more ==> LengthRead(s, i, h, r, |old(answers)|)
        invariant Decoded(old(Now()), s, 0, 1, 0) ==
          if more then Decoded(Now(), s, value, multiplier, len) else (Now(), r)
        decreases more, 4 - len
      {
        hide Value, HeaderLength, SocketReader.Working, SocketReader.Located;
        ghost var before := Traffic();
        DecodeStep(Now(), s, value, multiplier, len);
        var got := LengthChar(s, i, h);
        Hearing(old(Traffic()), before, s);
        if got.Char? {
          h := h + [got.c];
          value := value + got.c as int % 128 * multiplier;
          multiplier := multiplier * 128;
          len := len + 1;
          more := got.c >= 128 && len < 4;
          r := if got.c < 128 then Length(value) else LengthError;
        } else {
          more := false;
          r := if got.CharInterrupted? then LengthInterrupted else LengthError;
        }
      }
    }

    /** One turn of the loop in MQTTPacket_decode. */
    lemma DecodeStep(l: Line, s: int, value: nat, multiplier: nat, len: nat)
      requires len < 4
      ensures var (after, got) := GotChar(l, s);
        Decoded(l, s, value, multiplier, len) ==
          match got
          case CharInterrupted => (after, LengthInterrupted)
          case CharError => (after, LengthError)
          case Char(c) =>
            var sum := value + c as int % 128 * multiplier;
            if c < 128 then (after, Length(sum))
            else if len == 3 then (after, LengthError)
            else Decoded(after, s, sum, multiplier * 128, len + 1)
    {
      hide GotChar;
    }

    /** What was heard since `middle` ends what was heard since `was`. */
    lemma Hearing(was: Net, middle: Net, s: int)
      requires Heard(was, middle, s) && Heard(middle, Traffic(), s)
      ensures Heard(was, Traffic(), s) && |was.answers| <= |middle.answers| <= |answers|
      ensures Waits(answers[|middle.answers|..]) ==> Waits(answers[|was.answers|..])
      ensures Ends(answers[|middle.answers|..]) ==> Ends(answers[|was.answers|..])
      ensures FailedFor(s, |middle.answers|) ==> FailedFor(s, |was.answers|)
    {
      HeardTwice(was, middle, Traffic(), s);
      var x, y := answers[|was.answers|..], answers[|middle.answers|..];
      assert y != [] ==> x[|x| - 1] == y[|y| - 1];
    }

    /** Why a read of s fails, given how many answers came before it. */
    ghost predicate FailedFor(s: int, since: nat)
      requires since <= |answers|
      reads this
    {
      Ends(answers[since..]) || (s in received && s in frames && Malformed(received[s], frames[s]))
    }

    lemma NoFifthByte(s: int, i: int, h: seq<Byte>)
      requires Working(s, i, h) && |h| == 5 && HeaderLength(h) == 0
      ensures Failing(s) && s in frames && Malformed(received[s], frames[s])
    {
      hide Wire;
      var q := Active(i);
      assert q.Header() == h && q.Partial() == h;
      assert received[s][|Wire(frames[s])|..] == h;
      Fails(s, h);
    }

    /** The frame with header h and this body is complete: the history of s takes it in. */
    ghost method Record(s: int, i: int, h: seq<Byte>, body: seq<Byte>)
      requires Located(s, i) && Accounted(queues, received, frames, s)
      requires Frame(h, body).WellFormed()
      requires received[s] == Wire(frames[s]) + Frame(h, body).Bytes()
      modifies this`frames
      ensures frames == old(frames)[s := old(frames[s]) + [Frame(h, body)]]
      ensures Accounted(queues, received, frames, s)
      ensures received[s] == Wire(frames[s])
    {
      var fs := frames[s] + [Frame(h, body)];
      WireSnoc(frames[s], Frame(h, body));
      HistoryKeepsOthers(queues, received, frames, s, received[s], fs);
      assert received[s := received[s]] == received;
      frames := frames[s := fs];
    }

    /** During the body: there is a buffer that holds all of it. */
    ghost predicate Buffered(s: int, i: int, h: seq<Byte>, actual: nat)
      reads this
    {
      && Located(s, i) && Accounted(queues, received, frames, s)
      && (i == -1 ==> defQueue.socket == s)
      && HeaderComplete(h)
      && var q := Active(i);
      && q.Sized() && q.Header() == h
      && actual <= BodyLength(h) <= q.buflen
    }

    /** And every byte delivered is in a completed frame, in h or one of the `actual` first. */
    ghost predicate Reading(s: int, i: int, h: seq<Byte>, actual: nat)
      reads this
    {
      Buffered(s, i, h, actual) && received[s] == Wire(frames[s]) + (h + Active(i).buf[..actual])
    }

    /** recv writes behind the bytes already in the buffer. */
    method Store(s: int, at: nat, data: seq<Byte>, ghost i: int, ghost h: seq<Byte>)
      requires Buffered(s, i, h, at) && at + |data| <= BodyLength(h)
      requires received[s] == Wire(frames[s]) + (h + Active(i).buf[..at]) + data
      modifies this`queues, this`defQueue
      ensures Reading(s, i, h, at + |data|)
      ensures Find(queues, s) == Find(old(queues), s)
      ensures at + |data| <= Current(old(Held()), s).buflen
      ensures Held() == Update(old(Held()), s, WithData(Current(old(Held()), s), at, data))
    {
      hide Find, Wire, Value, HeaderLength;
      Here(s, i);
      ghost var q := Active(i);
      Put(s, at, data);
      if i >= 0 {
        UpdateKeepsOthers(old(queues), i, WithData(q, at, data), received, frames, s);
      }
      assert Active(i).buf[..at + |data|] == q.buf[..at] + data;
      Rebracket(Wire(frames[s]), h, q.buf[..at], data);
    }

    lemma Rebracket(a: seq<Byte>, b: seq<Byte>, c: seq<Byte>, d: seq<Byte>)
      ensures a + (b + c) + d == a + (b + (c + d))
    {
    }

    /** The end of Socket_getdata: the packet is complete, or what there is of it is kept. */
    method Conclude(s: int, bytes: nat, actual: nat, ghost i: int, ghost h: seq<Byte>) returns (r: DataResult)
      requires Reading(s, i, h, actual) && bytes == BodyLength(h) > 0
      modifies this`queues, this`defQueue, this`frames
      ensures Valid()
      ensures r.Data? ==> Frame(h, r.bytes).WellFormed()
      ensures r.Data? ==> frames == old(frames)[s := old(frames[s]) + [Frame(h, r.bytes)]]
      ensures !r.Data? ==> r.DataInterrupted? && frames == old(frames)
      ensures bytes <= Current(old(Held()), s).buflen
      ensures (Held(), r) ==
        if actual == bytes then (Completed(old(Held()), s), Data(Current(old(Held()), s).buf[..bytes]))
        else (SetAside(old(Held()), s, actual), DataInterrupted)
    {
      if actual == bytes {
        var k := QueueOf(s);
        assert k == i;
        var buf := if k >= 0 then queues[k].buf[..bytes] else defQueue.buf[..bytes];
        Record(s, i, h, buf);
        Finish(s, i);
        r := Data(buf);
      } else {
        PutAside(s, actual, i);
        r := DataInterrupted;
      }
    }

    /** Socket_getdata: go on with the body where the last attempt stopped. A resumed read
        never needs a larger buffer than the one that holds its first bytes. */
    method Getdata(s: int, bytes: nat, ghost i: int, ghost h: seq<Byte>) returns (r: DataResult)
      requires Working(s, i, h) && HeaderComplete(h) && Active(i).Header() == h
      requires bytes == BodyLength(h)
      modifies this
      ensures Heard(old(Traffic()), Traffic(), s)
      ensures r.Data? ==> Valid() && Frame(h, r.bytes).WellFormed()
      ensures r.Data? ==> frames == old(frames)[s := old(frames[s]) + [Frame(h, r.bytes)]]
      ensures !r.Data? ==> frames == old(frames)
      ensures r.DataInterrupted? ==> Valid() && Waits(answers[|old(answers)|..])
      ensures r.DataError? ==> Failing(s) && Ends(answers[|old(answers)|..])
      ensures (Now(), r) == GotData(old(Now()), s, bytes, memory) && memory == old(memory)
    {
      hide Wire, Value, HeaderLength;
      if bytes == 0 {
        HeardNothing(Traffic(), s);
        Record(s, i, h, []);
        Finish(s, i);
        return Data([]);
      }
      var actual, lost := MakeRoom(s, bytes, i);
      assert !lost;
      assert Reading(s, i, h, actual);
      r := Fill(s, bytes, actual, i, h);
    }

    lemma StrictBodyIsIncomplete(h: seq<Byte>, part: seq<Byte>)
      requires HeaderComplete(h) && |part| < BodyLength(h)
      ensures Incomplete(h + part)
    {
      HeaderLengthOfHeader(h, part);
    }

    lemma FailsInBody(s: int, i: int, h: seq<Byte>, at: nat)
      requires Reading(s, i, h, at) && at < BodyLength(h)
      ensures Failing(s)
    {
      hide Wire, Value, HeaderLength, Accounted, OnePerSocket, SocketReader.Failing;
      StrictBodyIsIncomplete(h, Active(i).buf[..at]);
      Fails(s, h + Active(i).buf[..at]);
    }

    /** The one call of recv in Socket_getdata and what follows it. */
    method Fill(s: int, bytes: nat, at: nat, ghost i: int, ghost h: seq<Byte>) returns (r: DataResult)
      requires Reading(s, i, h, at) && at < bytes == BodyLength(h)
      modifies this
      ensures Heard(old(Traffic()), Traffic(), s)
      ensures r.Data? ==> Valid() && Frame(h, r.bytes).WellFormed()
      ensures r.Data? ==> frames == old(frames)[s := old(frames[s]) + [Frame(h, r.bytes)]]
      ensures !r.Data? ==> frames == old(frames)
      ensures r.DataInterrupted? ==> Valid() && Waits(answers[|old(answers)|..])
      ensures r.DataError? ==> Failing(s) && Ends(answers[|old(answers)|..])
      ensures bytes <= Current(old(Held()), s).buflen
      ensures (Now(), r) == Filled(old(Now()), s, bytes, at) && memory == old(memory)
    {
      hide Find, Wire, Value, HeaderLength, Accounted, OnePerSocket, SetAside, Completed, WithData, Heard, Update;
      hide SocketReader.Valid, SocketReader.Failing;
      Here(s, i);
      var actual := at;
      ghost var before := received;
      var got := Recv(s, bytes - actual);
      StillReached(before, s, i, h);
      if got.Failed? || got.Closed? {
        FailsInBody(s, i, h, at);
        return DataError;
      }
      if got.Bytes? {
        Store(s, actual, got.data, i, h);
        actual := actual + |got.data|;
      }
      r := Conclude(s, bytes, actual, i, h);
    }

    /** At any moment between calls, the completed frames of a socket are exactly those a
        sequential reading of its bytes finds, and its queue holds exactly the rest. */
    lemma ReadingIsParsing(s: int)
      requires Valid() && s in received
      ensures Parse(received[s]).0 == frames[s]
      ensures Parse(received[s]).1 == if Place(s) >= 0 then queues[Place(s)].Partial() else []
    {
      var i := Place(s);
      var rest := if i >= 0 then queues[i].Partial() else [];
      if i >= 0 {
        StoredIsIncomplete(queues[i]);
      }
      assert received[s] == Wire(frames[s]) + rest;
      ParseIsUnique(frames[s], rest);
    }

    /** The frames of every open socket are those in its bytes, after an error as well. */
    lemma ReadyIsParsing(s: int, failed: Option<int>)
      requires Ready(failed) && s in received
      ensures Parse(received[s]).0 == frames[s]
    {
      hide Wire, Parse;
      if failed == None {
        ReadingIsParsing(s);
      } else if failed == Some(s) {
        var n := |Wire(frames[s])|;
        assert received[s] == Wire(frames[s]) + received[s][n..];
        ParseIsUnique(frames[s], received[s][n..]);
      } else {
        OthersParse(s, failed.value);
      }
    }

    lemma OthersParse(s: int, failed: int)
      requires Failing(failed) && s in received && s != failed
      ensures Parse(received[s]).0 == frames[s]
    {
      hide Wire, Parse;
      var i := Place(s);
      var rest := if i >= 0 then queues[i].Partial() else [];
      if i >= 0 {
        StoredIsIncomplete(queues[i]);
      }
      assert received[s] == Wire(frames[s]) + rest;
      ParseIsUnique(frames[s], rest);
    }

    /** Where the queue of s is. */
    ghost function Place(s: int): (i: int)
      requires OnePerSocket(queues)
      reads this
      ensures -1 <= i < |queues|
      ensures i >= 0 ==> queues[i].socket == s
      ensures i == -1 ==> NotQueued(queues, s)
    {
      if NotQueued(queues, s) then -1 else var i :| 0 <= i < |queues| && queues[i].socket == s; i
    }

    /** A call for s may start. */
    lemma Starts(s: int)
      requires Valid() && s in received
      ensures Working(s, Place(s), [])
    {
      var i := Place(s);
      assert Accounted(queues, received, frames, s);
      if i == -1 {
        assert defQueue.Partial() == [];
      }
    }

    /** MQTTPacket_Factory: one attempt to read one packet from s. Whatever recv answers, what
        it delivered is accounted for, and a packet that comes out is built from the next frame
        of the byte stream. The attempt is given up only when recv has no more for now, and
        fails only with recv or on a malformed header. */
    method Factory(version: nat, s: int, recvs: seq<Received>, junk: seq<Byte>)
      returns (r: FactoryResult, ghost f: Frame)
      requires Valid() && s in received
      modifies this
      ensures old(answers) <= answers
      ensures forall i :: |old(answers)| <= i < |answers| ==> answers[i].socket == s
      ensures heard == Delivered(answers[|old(answers)|..])
      ensures received == old(received)[s := old(received[s]) + heard]
      ensures !r.SocketError? ==> Valid()
      ensures r.SocketError? ==> Failing(s) && FailedFor(s, |old(answers)|)
      ensures r.Interrupted? ==> Waits(answers[|old(answers)|..])
      ensures !r.Read? ==> frames == old(frames)
      ensures r.Read? ==> f.WellFormed() && frames == old(frames)[s := old(frames[s]) + [f]]
      ensures r.Read? ==> r.built == Build(version, f.header[0], f.body)
      ensures (Now(), r) == Attempted(version, Line(old(Held()), recvs, []), s, junk)
    {
      hide Accounted, OnePerSocket, NotQueued, Wire, Malformed, Build, GotChar, Decoded, GotData;
      tape, memory, heard := recvs, junk, [];
      assert Valid();
      ghost var was := Traffic();
      r, f := OneAttempt(version, s);
      NewlyHeard(was, s);
    }

    lemma NewlyHeard(was: Net, s: int)
      requires Heard(was, Traffic(), s) && was.heard == []
      ensures was.answers <= answers
      ensures forall i :: |was.answers| <= i < |answers| ==> answers[i].socket == s
      ensures heard == Delivered(answers[|was.answers|..])
      ensures received == was.received[s := was.received[s] + heard]
    {
      var more := answers[|was.answers|..];
      forall i | |was.answers| <= i < |answers| ensures answers[i].socket == s {
        assert answers[i] == more[i - |was.answers|];
      }
    }

    method OneAttempt(version: nat, s: int) returns (r: FactoryResult, ghost f: Frame)
      requires Valid() && s in received
      modifies this
      ensures Heard(old(Traffic()), Traffic(), s) && |old(answers)| <= |answers|
      ensures !r.SocketError? ==> Valid()
      ensures r.SocketError? ==> Failing(s) && FailedFor(s, |old(answers)|)
      ensures r.Interrupted? ==> Waits(answers[|old(answers)|..])
      ensures !r.Read? ==> frames == old(frames)
      ensures r.Read? ==> f.WellFormed() && frames == old(frames)[s := old(frames[s]) + [f]]
      ensures r.Read? ==> r.built == Build(version, f.header[0], f.body)
      ensures (Now(), r) == Attempted(version, old(Now()), s, old(memory))
    {
      hide Accounted, OnePerSocket, NotQueued, Wire, Heard, Malformed, Build, GotChar, Decoded, GotData, Waits, Ends;
      Starts(s);
      ghost var i, was := Place(s), Traffic();
      hide SocketReader.Valid, SocketReader.Failing, SocketReader.Working;
      f := Frame([], []);
      var first := Getch(s, i, []);
      HeardIsLonger(was, Traffic(), s);
      if !first.Char? {
        return if first.CharInterrupted? then Interrupted else SocketError, f;
      }
      assert [] + [first.c] == [first.c];
      ghost var was1 := Traffic();
      var length, h := Decode(s, i, first.c);
      Hearing(was, was1, s);
      if !length.Length? {
        return if length.LengthInterrupted? then Interrupted else SocketError, f;
      }
      ghost var was2 := Traffic();
      var data := Getdata(s, length.value, i, h);
      Hearing(was, was2, s);
      if !data.Data? {
        return if data.DataInterrupted? then Interrupted else SocketError, f;
      }
      f := Frame(h, data.bytes);
      r := Read(Build(version, first.c, data.bytes));
    }

    /** SocketBuffer_cleanup, the input half: s is forgotten, and nothing of it stays behind
        in the default queue that the next socket will use. */
    method Cleanup(s: int, failed: Option<int>)
      requires Ready(failed) && s in received
      modifies this`queues, this`defQueue, this`received, this`frames
      ensures Ready(if failed == Some(s) then None else failed)
      ensures Held() == Cleaned(old(Held()), s)
      ensures received == old(received) - {s} && frames == old(frames) - {s}
    {
      hide Wire, Incomplete, Find;
      ghost var but := if failed.Some? then failed.value else 0;
      ghost var left := if but == s then 0 else but;
      assert s != 0 && Accounted(queues, received, frames, but);
      WithoutSocket(queues, Find(queues, s), received, frames, s, but);
      hide Accounted;
      CleanUp(s);
      received := received - {s};
      frames := frames - {s};
    }
  }

  lemma WithoutSocket(queues: seq<SocketQueue>, k: int, received: Streams, frames: Histories, s: int, but: int)
    requires Accounted(queues, received, frames, but) && s != 0
    requires -1 <= k < |queues| && (k >= 0 ==> queues[k].socket == s) && (k == -1 ==> NotQueued(queues, s))
    ensures Accounted(if k >= 0 then RemoveAt(queues, k) else queues, received - {s}, frames - {s},
      if but == s then 0 else but)
  {
    hide Wire, AllWellFormed, RawQueue.Stored, RawQueue.Partial;
    if k >= 0 {
      var qs := RemoveAt(queues, k);
      forall t | t in received && t != s && t != but && NotQueued(qs, t)
        ensures received[t] == Wire(frames[t])
      {
        forall i | 0 <= i < |queues| ensures queues[i].socket != t {
          if i != k {
            assert qs[if i < k then i else i - 1] == queues[i];
          }
        }
      }
    }
  }

  // ----- whole runs

  /** An attempt to read s, with the answers of recv meanwhile. */
  ghost predicate Tried(version: nat, s: int, r: FactoryResult, a: Snapshot, b: Snapshot)
    requires s in a.received && s in a.frames
  {
    && a.answers <= b.answers
    && var more := b.answers[|a.answers|..];
    && (forall i :: 0 <= i < |more| ==> more[i].socket == s)
    && b.received == a.received[s := a.received[s] + Delivered(more)]
    && match r
       case Interrupted => Waits(more) && b.frames == a.frames
       case SocketError => (Ends(more) || Malformed(b.received[s], a.frames[s])) && b.frames == a.frames
       case Read(built) =>
         && s in b.frames && b.frames[s] != []
         && var f := b.frames[s][|b.frames[s]| - 1];
         && f.WellFormed() && built == Build(version, f.header[0], f.body)
         && b.frames == a.frames[s := a.frames[s] + [f]]
  }

  /** What an event does: the new state and the outcome are those of the code, and what an
      attempt does to the histories is as it should be. */
  ghost predicate Stepped(version: nat, e: Event, o: Outcome, a: Snapshot, b: Snapshot)
    requires a.received.Keys == a.frames.Keys
  {
    && (b.Sys(), o) == Step(version, a.Sys(), e)
    && match e
       case Open(s) => b.answers == a.answers && b.frames == if o.Opened? then a.frames[s := []] else a.frames
       case Close(s) => b.answers == a.answers && b.frames == a.frames - {s}
       case Attempt(s, _, _) =>
         if s in a.received then o.Result? && Tried(version, s, o.result, a, b) else b == a
  }

  method PerformAttempt(reader: SocketReader, version: nat, s: int, recvs: seq<Received>, junk: seq<Byte>)
    returns (o: Outcome, failing: Option<int>)
    requires reader.Valid() && s in reader.received
    modifies reader
    ensures reader.Ready(failing) && reader.received.Keys == old(reader.received.Keys)
    ensures failing == if o == Result(SocketError) then Some(s) else None
    ensures old(reader.received.Keys) == old(reader.frames.Keys)
    ensures Stepped(version, Attempt(s, recvs, junk), o, old(reader.Seen()), reader.Seen())
  {
    hide Accounted, Wire, Malformed, Build, Delivered, Waits, Ends, Attempted, Incomplete;
    reader.SameKeys(None);
    var r, f := reader.Factory(version, s, recvs, junk);
    o := Result(r);
    failing := if r.SocketError? then Some(s) else None;
  }

  /** One event; `open` are the open sockets, and no attempt is made while one that has failed is
      among them. */
  method Perform(reader: SocketReader, version: nat, e: Event, open: set<int>, failed: Option<int>)
    returns (o: Outcome, left: set<int>, failing: Option<int>)
    requires reader.Ready(failed) && open == reader.received.Keys
    requires (e.Open? ==> e.s != 0) && (e.Attempt? ==> failed == None)
    modifies reader
    ensures reader.Ready(failing) && left == reader.received.Keys
    ensures old(reader.received.Keys) == old(reader.frames.Keys)
    ensures Stepped(version, e, o, old(reader.Seen()), reader.Seen())
    ensures failing == FailedAfter(e, o, failed)
  {
    hide Accounted, Wire, Malformed, Build, Delivered, Waits, Ends, Attempted, Incomplete, Tried, Cleaned;
    hide SocketReader.Valid, SocketReader.Failing;
    reader.SameKeys(failed);
    o, left, failing := Ignored, open, failed;
    match e
    case Open(s) =>
      if s !in open {
        reader.Open(s, failed);
        o, left := Opened, open + {s};
      }
    case Attempt(s, recvs, junk) =>
      if s in open {
        o, failing := PerformAttempt(reader, version, s, recvs, junk);
      }
    case Close(s) =>
      if s in open {
        reader.Cleanup(s, failed);
        o, left := Shut, open - {s};
        failing := if failed == Some(s) then None else failed;
      } else {
        assert reader.frames - {s} == reader.frames;
      }
  }

  function FailedAfter(e: Event, o: Outcome, failed: Option<int>): Option<int> {
    match (e, o)
    case (Attempt(s, _, _), Result(SocketError)) => Some(s)
    case (Close(s), _) => if failed == Some(s) then None else failed
    case _ => failed
  }

  ghost function SetOf(failed: Option<int>): set<int> {
    if failed.Some? then {failed.value} else {}
  }

  /** The results agree with the histories of all open sockets. */
  ghost predicate Faithful(events: seq<Event>, outcomes: seq<Outcome>, version: nat, frames: Histories)
    requires |events| == |outcomes|
  {
    forall t :: t in frames ==>
      AllWellFormed(frames[t]) && ResultsOf(events, outcomes, t) == BuildAll(version, frames[t])
  }

  lemma FaithfulStep(events: seq<Event>, outcomes: seq<Outcome>, version: nat,
                     e: Event, o: Outcome, a: Snapshot, b: Snapshot)
    requires |events| == |outcomes| && a.received.Keys == a.frames.Keys
    requires Faithful(events, outcomes, version, a.frames) && Stepped(version, e, o, a, b)
    ensures Faithful(events + [e], outcomes + [o], version, b.frames)
  {
    hide Build, Wire, Delivered, Waits, Ends, Malformed, HeaderLength, Value, Attempted, Cleaned;
    var es, os := events + [e], outcomes + [o];
    forall t | t in b.frames
      ensures AllWellFormed(b.frames[t]) && ResultsOf(es, os, t) == BuildAll(version, b.frames[t])
    {
      ResultsStep(events, outcomes, e, o, t);
    }
  }

  lemma FailedStep(failed: Option<int>, e: Event, o: Outcome)
    requires e.Attempt? ==> failed == None
    ensures StillFailed(SetOf(failed), e, o) == SetOf(FailedAfter(e, o, failed))
  {
  }

  /** What holds of a run so far and the reader after it. */
  ghost predicate Served(version: nat, events: seq<Event>, outcomes: seq<Outcome>, reader: SocketReader,
                         open: set<int>, failed: Option<int>)
    reads reader
  {
    && |outcomes| == |events| && reader.Ready(failed) && open == reader.received.Keys
    && RunOf(version, events) == (reader.Seen().Sys(), outcomes)
    && FailedOpen(events, outcomes) == SetOf(failed)
    && Faithful(events, outcomes, version, reader.frames)
  }

  /** The run goes on with one event. */
  method ServeOne(reader: SocketReader, version: nat, ghost events: seq<Event>, ghost outcomes: seq<Outcome>, e: Event,
                  open: set<int>, failed: Option<int>) returns (o: Outcome, left: set<int>, failing: Option<int>)
    requires Served(version, events, outcomes, reader, open, failed)
    requires (e.Open? ==> e.s != 0) && (e.Attempt? ==> FailedOpen(events, outcomes) == {})
    modifies reader
    ensures Served(version, events + [e], outcomes + [o], reader, left, failing)
    ensures old(reader.received.Keys) == old(reader.frames.Keys)
    ensures Stepped(version, e, o, old(reader.Seen()), reader.Seen())
  {
    hide Stepped, Accounted, Step, SocketReader.Ready, Faithful;
    ghost var before := reader.Seen();
    assert e.Attempt? ==> failed == None;
    o, left, failing := Perform(reader, version, e, open, failed);
    FaithfulStep(events, outcomes, version, e, o, before, reader.Seen());
    TakesStep(version, e, o, before, reader.Seen());
    RunStep(version, events, before.Sys(), outcomes, e, reader.Seen().Sys(), o);
    FailedStep(failed, e, o);
  }

  /** The trace starts with everything empty, and every event takes its step. */
  ghost predicate Traced(version: nat, events: seq<Event>, outcomes: seq<Outcome>, trace: seq<Snapshot>)
    requires |outcomes| == |events| && |trace| == |events| + 1
  {
    && trace[0] == Snapshot(Start().b, map[], map[], [])
    && forall i :: 0 <= i < |events| ==>
         trace[i].received.Keys == trace[i].frames.Keys
         && Stepped(version, events[i], outcomes[i], trace[i], trace[i + 1])
  }

  lemma TraceGrows(version: nat, events: seq<Event>, outcomes: seq<Outcome>, trace: seq<Snapshot>,
                   e: Event, o: Outcome, after: Snapshot)
    requires |outcomes| == |events| && |trace| == |events| + 1 && Traced(version, events, outcomes, trace)
    requires trace[|events|].received.Keys == trace[|events|].frames.Keys
    requires Stepped(version, e, o, trace[|events|], after)
    ensures Traced(version, events + [e], outcomes + [o], trace + [after])
  {
    hide Stepped;
    var es, os, all := events + [e], outcomes + [o], trace + [after];
    forall i | 0 <= i < |es|
      ensures all[i].received.Keys == all[i].frames.Keys && Stepped(version, es[i], os[i], all[i], all[i + 1])
    {
      if i < |events| {
        assert es[i] == events[i] && os[i] == outcomes[i] && all[i] == trace[i] && all[i + 1] == trace[i + 1];
      }
    }
  }

  /** Fragmentation independence. However the bytes of however many sockets are cut up by
      recv, in whatever order sockets are opened, read and closed by a careful caller, the
      packets handed out for an open socket are those of one sequential reading of all bytes
      recv has delivered for it. The trace holds the state after every event. */
  method Serve(version: nat, events: seq<Event>)
    returns (reader: SocketReader, outcomes: seq<Outcome>, ghost trace: seq<Snapshot>)
    requires Careful(version, events)
    ensures fresh(reader) && |outcomes| == |events| && |trace| == |events| + 1
    ensures RunOf(version, events) == (trace[|events|].Sys(), outcomes)
    ensures trace[|events|] == reader.Seen() && Traced(version, events, outcomes, trace)
    ensures forall t :: t in reader.received ==>
      && AllWellFormed(Parse(reader.received[t]).0)
      && ResultsOf(events, outcomes, t) == BuildAll(version, Parse(reader.received[t]).0)
  {
    hide Stepped, Accounted, Parse, Wire, Step, Incomplete;
    reader := new SocketReader();
    var open, failed := {}, None;
    outcomes, trace := [], [reader.Seen()];
    assert events[..0] == [];
    for n := 0 to |events|
      invariant fresh(reader) && Served(version, events[..n], outcomes, reader, open, failed)
      invariant |outcomes| == n && |trace| == n + 1
      invariant trace[n] == reader.Seen() && Traced(version, events[..n], outcomes, trace)
    {
      hide Served, SocketReader.Ready, Traced;
      var o, left, failing := ServeOne(reader, version, events[..n], outcomes, events[n], open, failed);
      assert events[..n + 1] == events[..n] + [events[n]];
      TraceGrows(version, events[..n], outcomes, trace, events[n], o, reader.Seen());
      outcomes, open, failed := outcomes + [o], left, failing;
      trace := trace + [reader.Seen()];
    }
    assert events[..|events|] == events;
    reader.SameKeys(failed);
    forall t | t in reader.received
      ensures Parse(reader.received[t]).0 == reader.frames[t]
    {
      reader.ReadyIsParsing(t, failed);
    }
  }

  lemma TakesStep(version: nat, e: Event, o: Outcome, a: Snapshot, b: Snapshot)
    requires a.received.Keys == a.frames.Keys && Stepped(version, e, o, a, b)
    ensures Step(version, a.Sys(), e) == (b.Sys(), o)
  {
  }
}
