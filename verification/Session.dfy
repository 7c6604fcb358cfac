/** The client session: message ids, messages in flight, the publication store and inbound
    delivery (src/MQTTProtocol.c and the session steps of src/MQTTClient.c). Each method is
    one step; the code runs them under one mutex. */
module Session {
  import opened Common

  const MAX_MSG_ID := 65535

  /** Publications: stored once and shared by reference; `id` stands for its address. */
  datatype Publication = Publication(id: nat, topic: seq<Byte>, payload: seq<Byte>, refcount: int)

  /** Messages: a QoS 1 or 2 message in flight. */
  datatype Message = Message(msgid: int, qos: int, retain: int, pub: nat)

  /** qEntry: a message waiting for the application; `addr` stands for its address. */
  datatype QEntry = QEntry(
    addr: nat, topic: seq<Byte>, payload: seq<Byte>, qos: int, retained: int, dup: int, msgid: int)

  datatype AckType = Puback | Pubrec

  datatype AckRequest = AckRequest(messageId: int, ackType: AckType)

  /** Clients; `handle` stands for the address the application has. */
  datatype Client = Client(
    handle: nat, msgID: int, outbound: seq<Message>, inbound: seq<Message>,
    messageQueue: seq<QEntry>, outboundQueue: seq<AckRequest>)

  /** What the one thread that makes deliveries holds on to during a callback. */
  datatype Delivery = Delivery(handle: nat, qe: QEntry)

  /** An inbound PUBLISH. */
  datatype Inbound = Inbound(topic: seq<Byte>, payload: seq<Byte>, qos: int, retain: int, dup: int, msgId: int)

  /** The entry queued for p at an address. */
  function EntryOf(p: Inbound, addr: nat): QEntry {
    QEntry(addr, p.topic, p.payload, p.qos, p.retain, if p.qos == 2 then 0 else p.dup, p.msgId)
  }

  /** What the application is given of a message is what came. */
  predicate Carries(e: QEntry, p: Inbound) {
    && e.topic == p.topic && e.payload == p.payload && e.msgid == p.msgId
    && e.qos == p.qos && e.retained == p.retain && (p.qos != 2 ==> e.dup == p.dup)
  }

  // ----- message ids

  function MsgIds(ms: seq<Message>): (r: seq<int>)
    ensures |r| == |ms|
  {
    seq(|ms|, i requires 0 <= i < |ms| => ms[i].msgid)
  }

  predicate InUse(ms: seq<Message>, id: int) {
    id in MsgIds(ms)
  }

  /** ListFindItem with messageIDCompare, on a list where ids are unique. */
  method FindMessage(ms: seq<Message>, id: int) returns (k: int)
    ensures -1 <= k < |ms|
    ensures k >= 0 ==> ms[k].msgid == id
    ensures k == -1 <==> !InUse(ms, id)
  {
    k := 0;
    while k < |ms|
      invariant 0 <= k <= |ms|
      invariant forall j :: 0 <= j < k ==> MsgIds(ms)[j] != id
    {
      assert MsgIds(ms)[k] == ms[k].msgid;
      if ms[k].msgid == id {
        return;
      }
      k := k + 1;
    }
    k := -1;
  }

  function NextId(id: int): int {
    if id == MAX_MSG_ID then 1 else id + 1
  }

  /** The id after j + 1 steps from start. */
  function Nth(start: int, j: nat): (id: int)
    ensures 0 <= start <= MAX_MSG_ID ==> 1 <= id <= MAX_MSG_ID
  {
    (start + j) % MAX_MSG_ID + 1
  }

  lemma NthSteps(start: int, j: nat)
    requires 0 <= start <= MAX_MSG_ID
    ensures Nth(start, 0) == NextId(start)
    ensures Nth(start, j + 1) == NextId(Nth(start, j))
    ensures start >= 1 ==> Nth(start, MAX_MSG_ID - 1) == start
    ensures start >= 1 && j < MAX_MSG_ID - 1 ==> Nth(start, j) != start
  {
    if start >= 1 && j < MAX_MSG_ID - 1 {
      if start + j < MAX_MSG_ID {
        assert (start + j) % MAX_MSG_ID == start + j;
      } else {
        assert (start + j) % MAX_MSG_ID == start + j - MAX_MSG_ID;
      }
    }
  }

  /** Every id other than start comes up within one round. */
  lemma NthReaches(start: int, id: int) returns (j: nat)
    requires 1 <= start <= MAX_MSG_ID && 1 <= id <= MAX_MSG_ID && id != start
    ensures j < MAX_MSG_ID - 1 && Nth(start, j) == id
  {
    j := if id > start then id - start - 1 else id - start - 1 + MAX_MSG_ID;
  }

  /** What assignMsgId can do: nothing when every id but the last one given is taken. */
  ghost predicate Exhausted(start: int, out: seq<Message>) {
    start != 0 && forall id :: 1 <= id <= 65535 && id != start ==> InUse(out, id)
  }

  ghost function Elements(s: seq<int>): set<int> {
    set x | x in s
  }

  lemma {:induction false} ElementsSize(s: seq<int>)
    ensures |Elements(s)| <= |s|
  {
    if s == [] {
      assert Elements(s) == {};
    } else {
      ElementsSize(s[1..]);
      assert Elements(s) == Elements(s[1..]) + {s[0]};
    }
  }

  lemma SubsetSize(a: set<int>, b: set<int>)
    requires a <= b
    ensures |a| <= |b|
  {
    assert b == a + (b - a);
  }

  /** The ids 1 to n. */
  ghost function Interval(n: nat): set<int> {
    if n == 0 then {} else Interval(n - 1) + {n}
  }

  lemma {:induction false} IntervalSize(n: nat)
    ensures |Interval(n)| == n
    ensures forall x :: x in Interval(n) <==> 1 <= x <= n
  {
    if n > 0 {
      IntervalSize(n - 1);
    }
  }

  /** With fewer than 65534 messages in flight there is always an id to give. */
  lemma RoomForOneMore(start: int, out: seq<Message>)
    requires 0 <= start <= 65535 && |out| < 65534
    ensures !Exhausted(start, out)
  {
    if Exhausted(start, out) {
      IntervalSize(MAX_MSG_ID);
      var others := Interval(MAX_MSG_ID) - {start};
      forall id | id in others ensures id in Elements(MsgIds(out)) {
        assert InUse(out, id);
      }
      SubsetSize(others, Elements(MsgIds(out)));
      ElementsSize(MsgIds(out));
    }
  }

  /** All ids from start up to msgid, going round, are taken. */
  ghost predicate FirstFree(start: int, out: seq<Message>, msgid: int) {
    exists j: nat :: msgid == Nth(start, j) && TakenUpTo(start, out, j)
  }

  ghost predicate TakenUpTo(start: int, out: seq<Message>, j: nat) {
    forall i :: 0 <= i < j ==> InUse(out, Nth(start, i))
  }

  /** The search of MQTTProtocol_assignMsgId: the first free id after the last one given,
      going round once; 0 when all the others are taken, even if the starting one is free. It
      ends because an id was given before anything could be in flight. */
  method FreeId(start: int, out: seq<Message>) returns (msgid: int)
    requires 0 <= start <= MAX_MSG_ID && (start == 0 ==> out == [])
    ensures msgid == 0 <==> Exhausted(start, out)
    ensures msgid != 0 ==> 1 <= msgid <= 65535 && !InUse(out, msgid)
    ensures msgid != 0 ==> FirstFree(start, out, msgid)
  {
    ghost var j: nat := 0;
    NthSteps(start, 0);
    msgid := NextId(start);
    var found := FindMessage(out, msgid);
    while found >= 0
      invariant msgid == Nth(start, j) && j < MAX_MSG_ID - 1
      invariant found >= 0 <==> InUse(out, msgid)
      invariant start >= 1 ==> msgid != start
      invariant TakenUpTo(start, out, j)
      decreases MAX_MSG_ID - j
    {
      NthSteps(start, j);
      msgid := NextId(msgid);
      j := j + 1;
      if msgid == start {
        if j < MAX_MSG_ID - 1 {
          NthSteps(start, j);
        }
        AllOthersTaken(start, out);
        return 0;
      }
      found := FindMessage(out, msgid);
    }
    assert !InUse(out, msgid);
  }

  /** A whole round of taken ids leaves none but the starting one. */
  lemma AllOthersTaken(start: int, out: seq<Message>)
    requires 1 <= start <= MAX_MSG_ID
    requires TakenUpTo(start, out, MAX_MSG_ID - 1)
    ensures Exhausted(start, out)
  {
    forall id | 1 <= id <= MAX_MSG_ID && id != start ensures InUse(out, id) {
      var i := NthReaches(start, id);
    }
  }

  // ----- references to publications

  function Pubs(ms: seq<Message>): (r: seq<nat>)
    ensures |r| == |ms|
  {
    seq(|ms|, i requires 0 <= i < |ms| => ms[i].pub)
  }

  function Ids(ps: seq<Publication>): (r: seq<nat>)
    ensures |r| == |ps|
  {
    seq(|ps|, i requires 0 <= i < |ps| => ps[i].id)
  }

  ghost function Refs(c: Client): multiset<nat> {
    multiset(Pubs(c.outbound)) + multiset(Pubs(c.inbound))
  }

  /** The references held by all clients. */
  ghost function AllRefs(clients: seq<Client>): multiset<nat> {
    if clients == [] then multiset{} else Refs(clients[0]) + AllRefs(clients[1..])
  }

  lemma {:induction false} AllRefsUpdate(clients: seq<Client>, k: nat, c: Client)
    requires k < |clients|
    ensures Refs(clients[k]) <= AllRefs(clients)
    ensures AllRefs(clients[k := c]) == AllRefs(clients) - Refs(clients[k]) + Refs(c)
  {
    hide Refs;
    if k == 0 {
      assert clients[k := c][1..] == clients[1..];
    } else {
      AllRefsUpdate(clients[1..], k - 1, c);
      assert clients[k := c][1..] == clients[1..][k - 1 := c];
    }
  }

  lemma {:induction false} AllRefsRemove(clients: seq<Client>, k: nat)
    requires k < |clients|
    ensures Refs(clients[k]) <= AllRefs(clients)
    ensures AllRefs(RemoveAt(clients, k)) == AllRefs(clients) - Refs(clients[k])
  {
    hide Refs;
    assert RemoveAt(clients, k) == clients[..k] + clients[k + 1..];
    if k == 0 {
      assert RemoveAt(clients, k) == clients[1..];
    } else {
      AllRefsRemove(clients[1..], k - 1);
      var rest := RemoveAt(clients[1..], k - 1);
      assert RemoveAt(clients, k) == [clients[0]] + rest;
      assert ([clients[0]] + rest)[1..] == rest;
    }
  }

  lemma {:induction false} AllRefsAppend(clients: seq<Client>, c: Client)
    ensures AllRefs(clients + [c]) == AllRefs(clients) + Refs(c)
  {
    hide Refs;
    if clients == [] {
      assert clients + [c] == [c];
      assert AllRefs([c]) == Refs(c) + AllRefs([]);
    } else {
      assert (clients + [c])[1..] == clients[1..] + [c];
      AllRefsAppend(clients[1..], c);
    }
  }

  lemma MultisetRemoveAt<T>(s: seq<T>, k: nat)
    requires k < |s|
    ensures multiset(RemoveAt(s, k)) == multiset(s) - multiset{s[k]}
    ensures s[k] in multiset(s)
  {
    assert RemoveAt(s, k) == s[..k] + s[k + 1..];
    assert s == s[..k] + [s[k]] + s[k + 1..];
  }

  /** The publication store and the messages: every stored publication is referred to by
      exactly one message, and counts one reference. */
  ghost predicate Conserved(clients: seq<Client>, publications: seq<Publication>, next: nat) {
    AllRefs(clients) == multiset(Ids(publications)) && SingleRefs(publications, next)
  }

  ghost predicate SingleRefs(publications: seq<Publication>, next: nat) {
    && (forall i :: 0 <= i < |publications| ==> publications[i].refcount == 1 && publications[i].id < next)
    && (forall i, j :: 0 <= i < j < |publications| ==> publications[i].id != publications[j].id)
  }

  lemma SingleRefsRemove(publications: seq<Publication>, next: nat, i: nat)
    requires SingleRefs(publications, next) && i < |publications|
    ensures SingleRefs(RemoveAt(publications, i), next)
    ensures Ids(RemoveAt(publications, i)) == RemoveAt(Ids(publications), i)
  {
  }

  ghost predicate DistinctIds(ms: seq<Message>) {
    forall i, j :: 0 <= i < j < |ms| ==> ms[i].msgid != ms[j].msgid
  }

  /** The outbound side of a client: ids distinct and in range, and no message in flight
      while no id was ever given. */
  ghost predicate GoodOutbound(c: Client) {
    && 0 <= c.msgID <= MAX_MSG_ID
    && (c.msgID == 0 ==> c.outbound == [])
    && DistinctIds(c.outbound)
    && (forall i :: 0 <= i < |c.outbound| ==> 1 <= c.outbound[i].msgid <= MAX_MSG_ID && c.outbound[i].qos > 0)
  }

  /** A PUBACK handed to the socket, or queued behind pending output. */
  datatype Ack = Ack(id: int, queued: bool)

  /** What has happened at the inbound side of a client: the QoS 0 and 1 messages received,
      those the application has taken, the PUBACKs made, the QoS 2 messages received, and the
      ids of those that came behind pending output. */
  datatype History = History(
    received: seq<QEntry>, taken: seq<QEntry>, acks: seq<Ack>, exact: seq<Message>, behind: seq<int>)

  /** The QoS 2 messages to keep: for every id the newest, where the first one stood. */
  function Kept(arrived: seq<Message>): (r: seq<Message>)
  {
    if arrived == [] then []
    else Keep(Kept(arrived[..|arrived| - 1]), arrived[|arrived| - 1])
  }

  ghost predicate GoodInbound(c: Client, h: History) {
    GoodQueues(c, h) && GoodAcks(c, h)
  }

  /** Every message received is taken or queued, in order, and of the QoS 2 messages those to
      keep are kept. */
  ghost predicate GoodQueues(c: Client, h: History) {
    && h.received == h.taken + c.messageQueue
    && c.inbound == Kept(h.exact)
  }

  /** One PUBACK was made for every QoS 1 message received, in order, and those not sent are
      the ones in the queue; one PUBREC is in the queue for every QoS 2 message that came behind
      pending output, in order. */
  ghost predicate GoodAcks(c: Client, h: History) {
    && AckIds(h.acks) == AckableIds(h.received) && QueuedIds(h.acks) == PubackIds(c.outboundQueue)
    && PubrecIds(c.outboundQueue) == h.behind
  }

  function AckIds(acks: seq<Ack>): (r: seq<int>)
    ensures |r| == |acks|
  {
    seq(|acks|, i requires 0 <= i < |acks| => acks[i].id)
  }

  function QueuedIds(acks: seq<Ack>): (r: seq<int>) {
    if acks == [] then []
    else
      var rest, last := QueuedIds(acks[..|acks| - 1]), acks[|acks| - 1];
      if last.queued then rest + [last.id] else rest
  }

  function PubackIds(queue: seq<AckRequest>): (r: seq<int>) {
    if queue == [] then []
    else
      var rest, last := PubackIds(queue[..|queue| - 1]), queue[|queue| - 1];
      if last.ackType == Puback then rest + [last.messageId] else rest
  }

  function PubrecIds(queue: seq<AckRequest>): (r: seq<int>) {
    if queue == [] then []
    else
      var rest, last := PubrecIds(queue[..|queue| - 1]), queue[|queue| - 1];
      if last.ackType == Pubrec then rest + [last.messageId] else rest
  }

  function QueueAfter(queue: seq<AckRequest>, p: Inbound, pending: bool): seq<AckRequest> {
    if p.qos == 1 && pending then queue + [AckRequest(p.msgId, Puback)]
    else if p.qos == 2 && pending then queue + [AckRequest(p.msgId, Pubrec)]
    else queue
  }

  /** The acknowledgement HandlePublish makes for p restores the balance its arrival upset. */
  lemma AcksBalance(c: Client, h: History, after: Client, now: History, p: Inbound, pending: bool, addr: nat)
    requires GoodAcks(c, h)
    requires now.received == if 0 <= p.qos <= 1 then h.received + [EntryOf(p, addr)] else h.received
    requires now.acks == if p.qos == 1 then h.acks + [Ack(p.msgId, pending)] else h.acks
    requires now.behind == if p.qos == 2 && pending then h.behind + [p.msgId] else h.behind
    requires after.outboundQueue == QueueAfter(c.outboundQueue, p, pending)
    ensures GoodAcks(after, now)
  {
    hide AckableIds, QueuedIds, PubackIds, PubrecIds;
    AckableSnoc(h.received, EntryOf(p, addr));
    AckSnoc(h.acks, Ack(p.msgId, pending));
    QueueSnoc(c.outboundQueue, AckRequest(p.msgId, if p.qos == 1 then Puback else Pubrec));
  }

  lemma AckSnoc(acks: seq<Ack>, a: Ack)
    ensures AckIds(acks + [a]) == AckIds(acks) + [a.id]
    ensures QueuedIds(acks + [a]) == if a.queued then QueuedIds(acks) + [a.id] else QueuedIds(acks)
  {
    assert (acks + [a])[..|acks|] == acks;
  }

  lemma QueueSnoc(queue: seq<AckRequest>, a: AckRequest)
    ensures PubackIds(queue + [a]) ==
      if a.ackType == Puback then PubackIds(queue) + [a.messageId] else PubackIds(queue)
    ensures PubrecIds(queue + [a]) ==
      if a.ackType == Pubrec then PubrecIds(queue) + [a.messageId] else PubrecIds(queue)
  {
    assert (queue + [a])[..|queue|] == queue;
  }

  /** The ids of the QoS 1 messages, in order. */
  function AckableIds(es: seq<QEntry>): (r: seq<int>) {
    if es == [] then []
    else
      var rest, last := AckableIds(es[..|es| - 1]), es[|es| - 1];
      if last.qos == 1 then rest + [last.msgid] else rest
  }

  lemma AckableSnoc(es: seq<QEntry>, e: QEntry)
    ensures AckableIds(es + [e]) == if e.qos == 1 then AckableIds(es) + [e.msgid] else AckableIds(es)
  {
    assert (es + [e])[..|es|] == es;
  }

  function Position(ms: seq<Message>, id: int): (k: int)
    ensures -1 <= k < |ms|
    ensures k >= 0 ==> ms[k].msgid == id
    ensures k == -1 ==> forall j :: 0 <= j < |ms| ==> ms[j].msgid != id
  {
    if ms == [] then -1
    else if ms[|ms| - 1].msgid == id then |ms| - 1
    else Position(ms[..|ms| - 1], id)
  }

  function Keep(ms: seq<Message>, m: Message): seq<Message> {
    var k := Position(ms, m.msgid);
    if k >= 0 then ms[k := m] else ms + [m]
  }

  /** m arrived and nothing with its id arrived after it. */
  ghost predicate LastArrival(arrived: seq<Message>, m: Message) {
    exists k :: 0 <= k < |arrived| && arrived[k] == m && NoneAfter(arrived, k)
  }

  ghost predicate NoneAfter(arrived: seq<Message>, k: nat)
    requires k < |arrived|
  {
    forall l :: k < l < |arrived| ==> arrived[l].msgid != arrived[k].msgid
  }

  lemma LastArrivalSnoc(before: seq<Message>, m: Message, x: Message)
    ensures LastArrival(before + [m], x) <==> x == m || (LastArrival(before, x) && x.msgid != m.msgid)
  {
    var all := before + [m];
    if x == m {
      assert all[|before|] == m && NoneAfter(all, |before|);
    } else if LastArrival(before, x) && x.msgid != m.msgid {
      var k :| 0 <= k < |before| && before[k] == x && NoneAfter(before, k);
      assert all[k] == x && NoneAfter(all, k);
    } else if LastArrival(all, x) {
      var k :| 0 <= k < |all| && all[k] == x && NoneAfter(all, k);
      assert all[|before|] == m;
      assert k < |before| && before[k] == x;
      forall l | k < l < |before| ensures before[l].msgid != before[k].msgid {
        assert all[l] == before[l];
      }
    }
  }

  /** What is kept is, once per id, the last arrival with that id. */
  lemma {:induction false} KeptIsNewest(arrived: seq<Message>)
    ensures DistinctIds(Kept(arrived))
    ensures forall x :: x in Kept(arrived) <==> LastArrival(arrived, x)
    decreases |arrived|, 0
  {
    if arrived == [] {
    } else {
      KeptStep(arrived[..|arrived| - 1], arrived[|arrived| - 1], arrived);
    }
  }

  lemma {:induction false} KeptStep(before: seq<Message>, m: Message, arrived: seq<Message>)
    requires arrived != [] && before == arrived[..|arrived| - 1] && m == arrived[|arrived| - 1]
    ensures DistinctIds(Kept(arrived))
    ensures forall x :: x in Kept(arrived) <==> LastArrival(arrived, x)
    decreases |before|, 1
  {
    hide LastArrival, Keep;
    KeptIsNewest(before);
    KeepOne(Kept(before), m);
    assert arrived == before + [m];
    forall x ensures x in Kept(arrived) <==> LastArrival(arrived, x) {
      LastArrivalSnoc(before, m, x);
    }
  }

  lemma KeepOne(ms: seq<Message>, m: Message)
    requires DistinctIds(ms)
    ensures DistinctIds(Keep(ms, m))
    ensures forall x :: x in Keep(ms, m) <==> x == m || (x in ms && x.msgid != m.msgid)
  {
    var k := Position(ms, m.msgid);
    var after := Keep(ms, m);
    if k >= 0 {
      assert after[k] == m;
      forall x | x in ms && x.msgid != m.msgid ensures x in after {
        var i :| 0 <= i < |ms| && ms[i] == x;
        assert after[i] == x;
      }
    } else {
      assert after[|ms|] == m;
      forall x | x in ms ensures x in after {
        var i :| 0 <= i < |ms| && ms[i] == x;
        assert after[i] == x;
      }
    }
  }

  /** The different ids of a list, in order of their first appearance. */
  function Firsts(ids: seq<int>): (r: seq<int>) {
    if ids == [] then []
    else
      var rest, last := Firsts(ids[..|ids| - 1]), ids[|ids| - 1];
      if last in rest then rest else rest + [last]
  }

  /** Every id stands where its first message stood. */
  lemma {:induction false} KeptStaysInPlace(arrived: seq<Message>)
    ensures MsgIds(Kept(arrived)) == Firsts(MsgIds(arrived))
    decreases |arrived|
  {
    if arrived != [] {
      var n := |arrived| - 1;
      KeptStaysInPlace(arrived[..n]);
      assert MsgIds(arrived)[..n] == MsgIds(arrived[..n]);
      KeepIds(Kept(arrived[..n]), arrived[n]);
    }
  }

  lemma KeepIds(ms: seq<Message>, m: Message)
    ensures MsgIds(Keep(ms, m)) == if m.msgid in MsgIds(ms) then MsgIds(ms) else MsgIds(ms) + [m.msgid]
  {
    var k := Position(ms, m.msgid);
    if k >= 0 {
      assert MsgIds(ms)[k] == m.msgid;
    }
  }

  // ----- one change to the store and to one client

  lemma StoreOne(clients: seq<Client>, publications: seq<Publication>, next: nat, k: nat, c: Client, p: Publication)
    requires Conserved(clients, publications, next) && k < |clients|
    requires p.id == next && p.refcount == 1
    requires Refs(c) == Refs(clients[k]) + multiset{p.id}
    ensures Conserved(clients[k := c], publications + [p], next + 1)
  {
    hide Refs, AllRefs;
    assert SingleRefs(publications + [p], next + 1);
    hide SingleRefs;
    AllRefsUpdate(clients, k, c);
    assert Ids(publications + [p]) == Ids(publications) + [p.id];
  }

  lemma DropOne(clients: seq<Client>, publications: seq<Publication>, next: nat, k: nat, c: Client, i: nat)
    requires Conserved(clients, publications, next) && k < |clients| && i < |publications|
    requires Refs(clients[k]) == Refs(c) + multiset{publications[i].id}
    ensures Conserved(clients[k := c], RemoveAt(publications, i), next)
  {
    hide Refs, AllRefs, SingleRefs;
    SingleRefsRemove(publications, next, i);
    AllRefsUpdate(clients, k, c);
    MultisetRemoveAt(Ids(publications), i);
  }

  lemma SameRefs(clients: seq<Client>, publications: seq<Publication>, next: nat, k: nat, c: Client)
    requires Conserved(clients, publications, next) && k < |clients|
    requires Refs(c) == Refs(clients[k])
    ensures Conserved(clients[k := c], publications, next)
  {
    hide Refs;
    AllRefsUpdate(clients, k, c);
  }

  lemma NewConserved(clients: seq<Client>, publications: seq<Publication>, next: nat, c: Client)
    requires Conserved(clients, publications, next) && c.outbound == [] && c.inbound == []
    ensures Conserved(clients + [c], publications, next + 1)
  {
    hide AllRefs;
    AllRefsAppend(clients, c);
    assert Pubs([]) == [];
  }

  lemma ConservedLater(clients: seq<Client>, publications: seq<Publication>, next: nat, later: nat)
    requires Conserved(clients, publications, next) && next <= later
    ensures Conserved(clients, publications, later)
  {
    hide AllRefs;
  }

  /** A referenced publication is stored. */
  lemma IsStored(clients: seq<Client>, publications: seq<Publication>, next: nat, k: nat, id: nat)
    requires Conserved(clients, publications, next) && k < |clients| && id in Refs(clients[k])
    ensures id in Ids(publications)
    ensures forall i :: 0 <= i < |publications| ==> publications[i].refcount == 1
  {
    hide Refs;
    AllRefsUpdate(clients, k, clients[k]);
    assert id in AllRefs(clients);
    assert id in multiset(Ids(publications));
  }

  // ----- addresses

  /** No two clients and no two entries of a queue have one address, and while a callback runs
      the entry it was given is the head of its client's queue, if the client is still there. */
  ghost predicate Addressed(clients: seq<Client>, next: nat, run: Option<Delivery>) {
    && (forall i, j :: 0 <= i < j < |clients| ==> clients[i].handle != clients[j].handle)
    && (forall i :: 0 <= i < |clients| ==> clients[i].handle < next && Numbered(clients[i].messageQueue, next))
    && (run.Some? ==> run.value.handle < next)
    && (forall i :: 0 <= i < |clients| && run.Some? && clients[i].handle == run.value.handle ==>
          clients[i].messageQueue != [] && clients[i].messageQueue[0] == run.value.qe)
  }

  ghost predicate Numbered(queue: seq<QEntry>, next: nat) {
    && (forall i :: 0 <= i < |queue| ==> queue[i].addr < next)
    && (forall i, j :: 0 <= i < j < |queue| ==> queue[i].addr != queue[j].addr)
  }

  const NO_ENTRY := QEntry(0, [], [], 0, 0, 0, 0)

  /** A change that leaves the queue of client k, or puts a new entry at its end. */
  lemma StaysAddressed(clients: seq<Client>, next: nat, run: Option<Delivery>,
                       k: nat, c: Client, later: nat, e: QEntry)
    requires Addressed(clients, next, run) && k < |clients| && c.handle == clients[k].handle && next <= later
    requires c.messageQueue == clients[k].messageQueue ||
      (next < later && e.addr == next && c.messageQueue == clients[k].messageQueue + [e])
    ensures Addressed(clients[k := c], later, run)
  {
    assert Numbered(clients[k].messageQueue, next);
    assert Numbered(c.messageQueue, later);
    var after := clients[k := c];
    forall i | 0 <= i < |after| ensures Numbered(after[i].messageQueue, later) {
      assert Numbered(clients[i].messageQueue, next);
    }
  }

  lemma NewAddressed(clients: seq<Client>, next: nat, run: Option<Delivery>, c: Client)
    requires Addressed(clients, next, run) && c.handle == next && c.messageQueue == []
    ensures Addressed(clients + [c], next + 1, run)
  {
    var after := clients + [c];
    forall i | 0 <= i < |clients| ensures Numbered(after[i].messageQueue, next + 1) {
      assert after[i] == clients[i] && Numbered(clients[i].messageQueue, next);
    }
  }

  lemma WithoutHead(clients: seq<Client>, next: nat, k: nat)
    requires Addressed(clients, next, None) && k < |clients| && clients[k].messageQueue != []
    ensures Addressed(clients[k := clients[k].(messageQueue := clients[k].messageQueue[1..])], next, None)
  {
    assert Numbered(clients[k].messageQueue, next);
    assert Numbered(clients[k].messageQueue[1..], next);
  }

  /** MQTTClients in `handles`: the client with an address, or -1. */
  function HandleAt(clients: seq<Client>, handle: nat): (k: int)
    ensures -1 <= k < |clients|
    ensures k >= 0 ==> clients[k].handle == handle
    ensures k == -1 ==> forall j :: 0 <= j < |clients| ==> clients[j].handle != handle
  {
    if clients == [] then -1
    else if clients[|clients| - 1].handle == handle then |clients| - 1
    else HandleAt(clients[..|clients| - 1], handle)
  }

  datatype State = State(
    clients: seq<Client>, publications: seq<Publication>, next: nat, histories: seq<History>, run: Option<Delivery>)

  /** How a delivery ends: there is none, its client is gone, or the entry stays or leaves. */
  datatype DeliveryEnd = Idle | Dangling | Ended

  class ClientStates {
    var clients: seq<Client>
    var publications: seq<Publication>
    var nextAddress: nat

    /** The delivery under way, if any. */
    var run: Option<Delivery>

    ghost var histories: seq<History>

    ghost predicate Valid()
      reads this
    {
      Balanced() && Addressed(clients, nextAddress, run)
    }

    ghost predicate Balanced()
      reads this
    {
      && |histories| == |clients|
      && Conserved(clients, publications, nextAddress)
      && forall k :: 0 <= k < |clients| ==> GoodOutbound(clients[k]) && GoodInbound(clients[k], histories[k])
    }

    /** Balanced but for the acknowledgements of client k. */
    ghost predicate Owing(k: nat)
      reads this
    {
      && |histories| == |clients| && k < |clients|
      && Conserved(clients, publications, nextAddress)
      && (forall j :: 0 <= j < |clients| ==> GoodOutbound(clients[j]))
      && (forall j :: 0 <= j < |clients| && j != k ==> GoodInbound(clients[j], histories[j]))
      && GoodQueues(clients[k], histories[k])
    }

    ghost function Seen(): State
      reads this
    {
      State(clients, publications, nextAddress, histories, run)
    }

    constructor ()
      ensures Valid() && Seen() == State([], [], 0, [], None)
    {
      clients, publications, nextAddress, histories, run := [], [], 0, [], None;
    }

    /** MQTTClient_create, the session part. */
    method Create() returns (k: nat)
      requires Valid()
      modifies this
      ensures Valid() && k == |old(clients)|
      ensures clients == old(clients) + [Client(old(nextAddress), 0, [], [], [], [])]
      ensures histories == old(histories) + [History([], [], [], [], [])]
      ensures publications == old(publications) && run == old(run) && nextAddress == old(nextAddress) + 1
    {
      hide Conserved, Addressed;
      k := |clients|;
      var c := Client(nextAddress, 0, [], [], [], []);
      NewConserved(clients, publications, nextAddress, c);
      NewAddressed(clients, nextAddress, run, c);
      clients := clients + [c];
      histories := histories + [History([], [], [], [], [])];
      nextAddress := nextAddress + 1;
    }

    /** MQTTProtocol_assignMsgId: an id not in flight is noted as the last one given. */
    method AssignMsgId(k: nat) returns (msgid: int)
      requires Balanced() && k < |clients|
      modifies this`clients
      ensures Balanced()
      ensures msgid == 0 <==> Exhausted(old(clients[k]).msgID, old(clients[k]).outbound)
      ensures msgid == 0 ==> clients == old(clients)
      ensures msgid != 0 ==>
        && 1 <= msgid <= 65535 && !InUse(old(clients[k]).outbound, msgid)
        && clients == old(clients)[k := old(clients[k]).(msgID := msgid)]
        && FirstFree(old(clients[k]).msgID, old(clients[k]).outbound, msgid)
    {
      hide Conserved, GoodInbound, Exhausted, FirstFree;
      msgid := FreeId(clients[k].msgID, clients[k].outbound);
      if msgid != 0 {
        SameRefs(clients, publications, nextAddress, k, clients[k].(msgID := msgid));
        SameInbound(clients[k], clients[k].(msgID := msgid), histories[k]);
        clients := clients[k := clients[k].(msgID := msgid)];
      }
    }

    /** MQTTProtocol_storePublication: a new publication with one reference. */
    method StorePublication(topic: seq<Byte>, payload: seq<Byte>) returns (p: nat)
      modifies this`publications, this`nextAddress
      ensures p == old(nextAddress) && nextAddress == p + 1
      ensures publications == old(publications) + [Publication(p, topic, payload, 1)]
    {
      p := nextAddress;
      publications := publications + [Publication(p, topic, payload, 1)];
      nextAddress := nextAddress + 1;
    }

    /** MQTTProtocol_removePublication: one reference less, and the publication goes with the
        last one. */
    method RemovePublication(p: nat) returns (ghost i: nat)
      requires p in Ids(publications)
      modifies this`publications
      ensures i < |old(publications)| && old(publications)[i].id == p
      ensures var q := old(publications)[i];
        publications == if q.refcount == 1 then RemoveAt(old(publications), i)
                        else old(publications)[i := q.(refcount := q.refcount - 1)]
    {
      var n := 0;
      while publications[n].id != p
        invariant 0 <= n < |publications| && publications == old(publications)
        invariant forall j :: 0 <= j < n ==> Ids(publications)[j] != p
        decreases |publications| - n
      {
        assert Ids(publications)[n] == publications[n].id;
        n := n + 1;
      }
      i := n;
      publications := publications[n := publications[n].(refcount := publications[n].refcount - 1)];
      if publications[n].refcount == 0 {
        publications := RemoveAt(publications, n);
        assert publications == RemoveAt(old(publications), n);
      }
    }

    /** MQTTClient_publish5 with a QoS above 0: MAX_MESSAGES_INFLIGHT when there is no id,
        otherwise the message is in flight whatever becomes of the send. */
    method Publish(k: nat, topic: seq<Byte>, payload: seq<Byte>, qos: int, retained: int) returns (token: Option<int>)
      requires Valid() && k < |clients| && qos > 0
      modifies this
      ensures Valid() && histories == old(histories) && run == old(run)
      ensures token.None? <==> Exhausted(old(clients[k]).msgID, old(clients[k]).outbound)
      ensures token.None? ==>
        clients == old(clients) && publications == old(publications) && nextAddress == old(nextAddress)
      ensures token.Some? ==>
        var c := old(clients[k]);
        && 1 <= token.value <= 65535 && !InUse(c.outbound, token.value)
        && FirstFree(c.msgID, c.outbound, token.value)
        && publications == old(publications) + [Publication(old(nextAddress), topic, payload, 1)]
        && clients == old(clients)[k := c.(msgID := token.value,
             outbound := c.outbound + [Message(token.value, qos, retained, old(nextAddress))])]
    {
      hide Refs, Conserved, GoodInbound, GoodOutbound, Addressed;
      ghost var was := clients;
      var msgid := AssignMsgId(k);
      if msgid == 0 {
        return None;
      }
      ghost var store := publications;
      var p := StorePublication(topic, payload);
      var c := clients[k];
      var m := Message(msgid, qos, retained, p);
      var after := c.(outbound := c.outbound + [m]);
      OneMoreInFlight(c, m);
      StoreOne(clients, store, p, k, after, publications[|store|]);
      SameInbound(c, after, histories[k]);
      StaysAddressed(was, p, run, k, after, nextAddress, NO_ENTRY);
      assert clients[k := after] == was[k := after];
      clients := clients[k := after];
      token := Some(msgid);
    }

    /** MQTTProtocol_handlePubacks: the QoS 1 message with this id leaves, nothing else
        changes; an unknown id or a QoS 2 message is ignored. */
    method HandlePuback(k: nat, msgId: int)
      requires Valid() && k < |clients|
      modifies this
      ensures Valid() && histories == old(histories) && nextAddress == old(nextAddress) && run == old(run)
      ensures var i := Acknowledged(old(clients[k]).outbound, msgId);
        && (i < 0 ==> clients == old(clients) && publications == old(publications))
        && (i >= 0 ==>
             && clients == old(clients)[k := old(clients[k]).(outbound := RemoveAt(old(clients[k]).outbound, i))]
             && |publications| == |old(publications)| - 1)
      ensures forall q :: q in publications ==> q in old(publications)
    {
      hide Refs, Conserved, GoodInbound, Addressed;
      var c := clients[k];
      var i := FindMessage(c.outbound, msgId);
      AcknowledgedIsFound(c.outbound, msgId, i);
      if i >= 0 {
        var m := c.outbound[i];
        if m.qos == 1 {
          var after := c.(outbound := RemoveAt(c.outbound, i));
          OneLessInFlight(c, i);
          IsStored(clients, publications, nextAddress, k, m.pub);
          ghost var store := publications;
          var n := RemovePublication(m.pub);
          DropOne(clients, store, nextAddress, k, after, n);
          SameInbound(c, after, histories[k]);
          StaysAddressed(clients, nextAddress, run, k, after, nextAddress, NO_ENTRY);
          clients := clients[k := after];
        }
      }
    }

    /** MQTTProtocol_handlePublishes: QoS 0 and 1 messages go to the queue, a QoS 1 message
        is acknowledged at once or, with output pending, later; a QoS 2 message replaces an
        earlier one with its id. */
    method HandlePublish(k: nat, p: Inbound, pending: bool)
      requires Valid() && k < |clients|
      modifies this
      ensures Valid()
      ensures Arrived(k, p, pending, old(Seen()), Seen())
    {
      hide Refs, Conserved, GoodInbound, GoodOutbound, GoodQueues, GoodAcks, Keep, Addressed;
      IsOwing(k);
      ghost var c, h, cs, next := clients[k], histories[k], clients, nextAddress;
      if p.qos == 0 {
        ProcessPublication(k, p);
      } else if p.qos == 1 {
        ProcessPublication(k, p);
        if pending {
          QueueAck(k, AckRequest(p.msgId, Puback));
        } else {
          SendPuback(k, p.msgId);
        }
      } else if p.qos == 2 {
        StoreInbound(k, p, pending);
        if pending {
          QueueAck(k, AckRequest(p.msgId, Pubrec));
        }
      }
      AcksBalance(c, h, clients[k], histories[k], p, pending, next);
      NothingOwed(k);
      assert clients == cs[k := clients[k]];
      StaysAddressed(cs, next, run, k, clients[k], nextAddress, EntryOf(p, next));
    }

    lemma IsOwing(k: nat)
      requires Balanced() && k < |clients|
      ensures Owing(k) && GoodAcks(clients[k], histories[k])
    {
    }

    lemma NothingOwed(k: nat)
      requires Owing(k) && GoodAcks(clients[k], histories[k])
      ensures Balanced()
    {
    }

    /** Protocol_processPublication; a QoS 1 message is owed an acknowledgement then. */
    method ProcessPublication(k: nat, p: Inbound)
      requires Owing(k) && 0 <= p.qos <= 1
      modifies this`clients, this`histories, this`nextAddress
      ensures Owing(k) && nextAddress == old(nextAddress) + 1
      ensures var c, h, e := old(clients[k]), old(histories[k]), EntryOf(p, old(nextAddress));
        && Carries(e, p)
        && clients == old(clients)[k := c.(messageQueue := c.messageQueue + [e])]
        && histories == old(histories)[k := h.(received := h.received + [e])]
    {
      hide Refs, Conserved, GoodInbound;
      var c := clients[k];
      var dup := p.dup;
      if p.qos == 2 {
        dup := 0;
      }
      var e := QEntry(nextAddress, p.topic, p.payload, p.qos, p.retain, dup, p.msgId);
      ghost var h := histories[k];
      assert h.received + [e] == h.taken + (c.messageQueue + [e]);
      StillOutbound(k, c.(messageQueue := c.messageQueue + [e]));
      clients := clients[k := c.(messageQueue := c.messageQueue + [e])];
      histories := histories[k := h.(received := h.received + [e])];
      ConservedLater(clients, publications, nextAddress, nextAddress + 1);
      nextAddress := nextAddress + 1;
    }

    /** MQTTPacket_send_puback: one attempt to send. */
    method SendPuback(k: nat, id: int)
      requires Owing(k)
      modifies this`histories
      ensures Owing(k)
      ensures histories == old(histories)[k := old(histories[k]).(acks := old(histories[k]).acks + [Ack(id, false)])]
    {
      hide Refs, Conserved, GoodInbound, GoodOutbound;
      histories := histories[k := histories[k].(acks := histories[k].acks + [Ack(id, false)])];
    }

    /** MQTTProtocol_queueAck. */
    method QueueAck(k: nat, ack: AckRequest)
      requires Owing(k)
      modifies this`clients, this`histories
      ensures Owing(k)
      ensures clients == old(clients)[k := old(clients[k]).(outboundQueue := old(clients[k]).outboundQueue + [ack])]
      ensures histories ==
        if ack.ackType == Puback then
          old(histories)[k := old(histories[k]).(acks := old(histories[k]).acks + [Ack(ack.messageId, true)])]
        else old(histories)
    {
      hide Refs, Conserved, GoodInbound;
      var c := clients[k];
      StillOutbound(k, c.(outboundQueue := c.outboundQueue + [ack]));
      clients := clients[k := c.(outboundQueue := c.outboundQueue + [ack])];
      if ack.ackType == Puback {
        histories := histories[k := histories[k].(acks := histories[k].acks + [Ack(ack.messageId, true)])];
      }
    }

    /** The QoS 2 branch: insert in front of the earlier message with this id and remove that
        one with its publication, or append. */
    method StoreInbound(k: nat, p: Inbound, ghost pending: bool)
      requires Owing(k) && p.qos == 2
      modifies this`clients, this`publications, this`nextAddress, this`histories
      ensures Owing(k) && nextAddress == old(nextAddress) + 1
      ensures var c, h, m := old(clients[k]), old(histories[k]), Message(p.msgId, 2, p.retain, old(nextAddress));
        && clients == old(clients)[k := c.(inbound := Keep(c.inbound, m))]
        && histories == old(histories)[k := h.(exact := h.exact + [m],
             behind := if pending then h.behind + [p.msgId] else h.behind)]
      ensures forall q :: q in publications ==>
        q in old(publications) || q == Publication(old(nextAddress), p.topic, p.payload, 1)
    {
      hide Refs, Conserved, GoodOutbound, GoodInbound, Kept, Position;
      ghost var h := histories[k];
      ghost var store := publications;
      var a := StorePublication(p.topic, p.payload);
      var m := Message(p.msgId, 2, p.retain, a);
      var c := clients[k];
      KeptSnoc(h.exact, m);
      KeptIsNewest(h.exact);
      var i := FindMessage(c.inbound, m.msgid);
      FoundIsPosition(c.inbound, m.msgid, i);
      if i >= 0 {
        ReplaceInbound(k, i, m, store);
      } else {
        AppendInbound(k, m, store);
      }
      KeepsOutbound(c, clients[k]);
      histories := histories[k := h.(exact := h.exact + [m],
        behind := if pending then h.behind + [p.msgId] else h.behind)];
    }

    /** The earlier message at position i makes way for m, which refers to the publication
        just stored. */
    method ReplaceInbound(k: nat, i: nat, m: Message, ghost store: seq<Publication>)
      requires k < |clients| && i < |clients[k].inbound| && Conserved(clients, store, m.pub)
      requires nextAddress == m.pub + 1 && publications != [] && store == publications[..|publications| - 1]
      requires publications[|publications| - 1].id == m.pub && publications[|publications| - 1].refcount == 1
      modifies this`clients, this`publications
      ensures clients == old(clients)[k := old(clients[k]).(inbound := old(clients[k]).inbound[i := m])]
      ensures Conserved(clients, publications, nextAddress)
      ensures forall q :: q in publications ==> q in old(publications)
    {
      hide Refs, Conserved;
      var c := clients[k];
      var msg := c.inbound[i];
      InboundRefs(c, i, m);
      var both := c.(inbound := InsertAt(c.inbound, i, m));
      ghost var before := publications;
      assert before == store + [before[|store|]];
      StoreOne(clients, store, m.pub, k, both, before[|store|]);
      ghost var with := clients[k := both];
      IsStored(with, before, nextAddress, k, msg.pub);
      var n := RemovePublication(msg.pub);
      var after := c.(inbound := RemoveAt(both.inbound, i + 1));
      DropOne(with, before, nextAddress, k, after, n);
      assert with[k := after] == clients[k := after];
      assert after.inbound == c.inbound[i := m];
      clients := clients[k := after];
    }

    method AppendInbound(k: nat, m: Message, ghost store: seq<Publication>)
      requires k < |clients| && Conserved(clients, store, m.pub)
      requires nextAddress == m.pub + 1 && publications != [] && store == publications[..|publications| - 1]
      requires publications[|publications| - 1].id == m.pub && publications[|publications| - 1].refcount == 1
      modifies this`clients
      ensures clients == old(clients)[k := old(clients[k]).(inbound := old(clients[k]).inbound + [m])]
      ensures Conserved(clients, publications, nextAddress)
    {
      hide Refs, Conserved;
      var c := clients[k];
      AppendedRef(c, m);
      assert publications == store + [publications[|store|]];
      StoreOne(clients, store, m.pub, k, c.(inbound := c.inbound + [m]), publications[|store|]);
      clients := clients[k := c.(inbound := c.inbound + [m])];
    }

    /** MQTTClient_run up to the callback, which gets the head of the queue. The mutex is free
        while it runs, and one thread makes all deliveries. */
    method BeginDelivery(k: nat, callback: bool) returns (qe: Option<QEntry>)
      requires Valid() && k < |clients|
      modifies this`run
      ensures Valid()
      ensures var c := clients[k];
        if c.messageQueue != [] && callback && old(run) == None then
          qe == Some(c.messageQueue[0]) && run == Some(Delivery(c.handle, c.messageQueue[0]))
        else qe == None && run == old(run)
    {
      hide Conserved, GoodInbound, GoodOutbound;
      qe := None;
      var c := clients[k];
      if |c.messageQueue| > 0 && callback && run == None {
        qe := Some(c.messageQueue[0]);
        run := Some(Delivery(c.handle, c.messageQueue[0]));
      }
    }

    /** MQTTClient_run behind the callback, whatever happened meanwhile: ListRemove takes out the
        entry that was handed out, if the callback took it. With the client gone the code goes on
        with memory that was freed. */
    method EndDelivery(rc: bool) returns (end: DeliveryEnd)
      requires Valid()
      modifies this`run, this`clients, this`histories
      ensures Valid() && run == None
      ensures Delivered(rc, end, old(Seen()), Seen())
    {
      hide Refs, Conserved, Addressed, GoodInbound, GoodOutbound;
      if run == None {
        return Idle;
      }
      var d := run.value;
      var k := ClientWith(d.handle);
      RunOver(k, d);
      run := None;
      if k < 0 {
        return Dangling;
      }
      end := Ended;
      if rc {
        RemoveEntry(k, d.qe);
      }
    }

    /** ListRemove(messageQueue, qe), for the entry that was handed out. */
    method RemoveEntry(k: nat, qe: QEntry)
      requires Valid() && run == None && k < |clients|
      requires clients[k].messageQueue != [] && clients[k].messageQueue[0] == qe
      modifies this`clients, this`histories
      ensures Valid()
      ensures var c, h := old(clients[k]), old(histories[k]);
        && clients == old(clients)[k := c.(messageQueue := c.messageQueue[1..])]
        && histories == old(histories)[k := h.(taken := h.taken + [qe])]
    {
      hide Refs, Conserved, Addressed, Kept, GoodOutbound, GoodAcks;
      var c := clients[k];
      IsNumbered(k);
      var at := EntryWith(c.messageQueue, qe.addr);
      HeadIsFound(c.messageQueue, nextAddress, at);
      ghost var h := histories[k];
      var after := c.(messageQueue := RemoveAt(c.messageQueue, at));
      assert after.messageQueue == c.messageQueue[1..];
      assert h.taken + c.messageQueue == h.taken + [qe] + after.messageQueue;
      WithoutHead(clients, nextAddress, k);
      StillOutbound(k, after);
      SameAcks(c, h, after, h.(taken := h.taken + [qe]));
      clients := clients[k := after];
      histories := histories[k := h.(taken := h.taken + [qe])];
    }

    lemma IsNumbered(k: nat)
      requires Addressed(clients, nextAddress, run) && k < |clients|
      ensures Numbered(clients[k].messageQueue, nextAddress)
    {
    }

    lemma RunOver(k: int, d: Delivery)
      requires Addressed(clients, nextAddress, Some(d)) && -1 <= k < |clients|
      requires k >= 0 ==> clients[k].handle == d.handle
      ensures Addressed(clients, nextAddress, None)
      ensures k >= 0 ==> clients[k].messageQueue != [] && clients[k].messageQueue[0] == d.qe
      ensures k >= 0 ==> Numbered(clients[k].messageQueue, nextAddress)
    {
    }

    lemma HeadIsFound(queue: seq<QEntry>, next: nat, at: nat)
      requires Numbered(queue, next) && queue != [] && at < |queue| && queue[at].addr == queue[0].addr
      ensures at == 0
    {
    }

    /** The client with an address, in `handles`. */
    method ClientWith(handle: nat) returns (k: int)
      requires Addressed(clients, nextAddress, run)
      ensures k == HandleAt(clients, handle)
    {
      k := 0;
      while k < |clients|
        invariant 0 <= k <= |clients|
        invariant forall j :: 0 <= j < k ==> clients[j].handle != handle
      {
        if clients[k].handle == handle {
          return;
        }
        k := k + 1;
      }
      k := -1;
    }

    /** ListRemove's search for the entry with an address, which is there. */
    method EntryWith(queue: seq<QEntry>, addr: nat) returns (at: nat)
      requires exists i :: 0 <= i < |queue| && queue[i].addr == addr
      ensures at < |queue| && queue[at].addr == addr
    {
      at := 0;
      while queue[at].addr != addr
        invariant 0 <= at < |queue| && exists i :: at <= i < |queue| && queue[i].addr == addr
        decreases |queue| - at
      {
        at := at + 1;
      }
    }

    lemma StillOutbound(k: nat, after: Client)
      requires Conserved(clients, publications, nextAddress) && k < |clients| && GoodOutbound(clients[k])
      requires after.outbound == clients[k].outbound && after.inbound == clients[k].inbound
      requires after.msgID == clients[k].msgID
      ensures Conserved(clients[k := after], publications, nextAddress) && GoodOutbound(after)
    {
      SameRefs(clients, publications, nextAddress, k, after);
    }

    /** MQTTProtocol_emptyMessageList on the messages sent. */
    method DropOutbound(k: nat)
      requires k < |clients| && Conserved(clients, publications, nextAddress)
      modifies this`publications
      ensures Conserved(clients[k := clients[k].(outbound := [])], publications, nextAddress)
      ensures forall q :: q in publications ==> q in old(publications)
    {
      hide Refs, Conserved;
      var c := clients[k];
      ghost var cs := clients;
      assert c.outbound[0..] == c.outbound && cs == clients[k := c.(outbound := c.outbound[0..])];
      var j := 0;
      while j < |c.outbound|
        invariant 0 <= j <= |c.outbound| && cs == clients[k := c.(outbound := c.outbound[j..])]
        invariant Conserved(cs, publications, nextAddress)
        invariant forall q :: q in publications ==> q in old(publications)
      {
        HeadRef(cs[k], j, c.outbound);
        IsStored(cs, publications, nextAddress, k, c.outbound[j].pub);
        ghost var store := publications;
        var n := RemovePublication(c.outbound[j].pub);
        ghost var next := c.(outbound := c.outbound[j + 1..]);
        DropOne(cs, store, nextAddress, k, next, n);
        assert cs[k := next] == clients[k := next];
        cs := clients[k := next];
        j := j + 1;
      }
      assert c.outbound[j..] == [];
    }

    /** MQTTProtocol_emptyMessageList on the messages received. */
    method DropInbound(k: nat, ghost c: Client)
      requires k < |clients| && c.inbound == clients[k].inbound
      requires Conserved(clients[k := c], publications, nextAddress)
      modifies this`publications
      ensures Conserved(clients[k := c.(inbound := [])], publications, nextAddress)
      ensures forall q :: q in publications ==> q in old(publications)
    {
      hide Refs, Conserved;
      var ms := clients[k].inbound;
      ghost var cs := clients[k := c];
      assert ms[0..] == ms && c == c.(inbound := ms[0..]);
      var j := 0;
      while j < |ms|
        invariant 0 <= j <= |ms| && cs == clients[k := c.(inbound := ms[j..])]
        invariant Conserved(cs, publications, nextAddress)
        invariant forall q :: q in publications ==> q in old(publications)
      {
        HeadInboundRef(cs[k], j, ms);
        IsStored(cs, publications, nextAddress, k, ms[j].pub);
        ghost var store := publications;
        var n := RemovePublication(ms[j].pub);
        ghost var next := c.(inbound := ms[j + 1..]);
        DropOne(cs, store, nextAddress, k, next, n);
        assert cs[k := next] == clients[k := next];
        cs := clients[k := next];
        j := j + 1;
      }
      assert ms[j..] == [];
    }

    /** MQTTProtocol_freeClient: the publications of all its messages go, then the client. */
    method Free(k: nat)
      requires Valid() && k < |clients|
      modifies this`clients, this`publications, this`histories
      ensures Valid()
      ensures clients == RemoveAt(old(clients), k) && histories == RemoveAt(old(histories), k)
      ensures forall q :: q in publications ==> q in old(publications)
    {
      hide Refs, Conserved, GoodInbound, GoodOutbound, Addressed;
      ghost var c := clients[k].(outbound := []);
      DropOutbound(k);
      DropInbound(k, c);
      ghost var cs := clients[k := c.(inbound := [])];
      RemoveEmptyClient(cs, publications, nextAddress, k);
      assert RemoveAt(cs, k) == RemoveAt(clients, k);
      OneLessClient(k);
      clients := RemoveAt(clients, k);
      histories := RemoveAt(histories, k);
    }

    lemma OneLessClient(k: nat)
      requires Addressed(clients, nextAddress, run) && k < |clients|
      ensures Addressed(RemoveAt(clients, k), nextAddress, run)
    {
    }
  }

  // ----- whole runs

  datatype Event =
    | Created
    | Published(k: nat, topic: seq<Byte>, payload: seq<Byte>, qos: int, retained: int)
    | PubackIn(k: nat, id: int)
    | PublishIn(k: nat, p: Inbound, pending: bool)
    | Called(k: nat, callback: bool)
    | Returned(rc: bool)
    | Freed(k: nat)

  /** What comes of an event: the token of a publish, what a callback was given, how a delivery
      ended. */
  datatype Outcome = Token(token: Option<int>) | Handed(qe: Option<QEntry>) | Finished(end: DeliveryEnd) | Done

  /** What holds at every moment of every run. */
  lemma ValidMeans(s: ClientStates)
    requires s.Valid()
    ensures forall k :: 0 <= k < |s.clients| ==>
      var c, h := s.clients[k], s.histories[k];
      && DistinctIds(c.outbound) && (forall m :: m in c.outbound ==> 1 <= m.msgid <= 65535)
      && h.received == h.taken + c.messageQueue
      && AckIds(h.acks) == AckableIds(h.received) && QueuedIds(h.acks) == PubackIds(c.outboundQueue)
      && PubrecIds(c.outboundQueue) == h.behind
      && MsgIds(c.inbound) == Firsts(MsgIds(h.exact)) && (forall m :: m in c.inbound <==> LastArrival(h.exact, m))
      && DistinctIds(c.inbound)
      && (|c.outbound| < 65534 ==> !Exhausted(c.msgID, c.outbound))
    ensures AllRefs(s.clients) == multiset(Ids(s.publications))
    ensures forall p :: p in s.publications ==> p.refcount == 1
    ensures s.clients == [] ==> s.publications == []
  {
    forall k | 0 <= k < |s.clients|
      ensures DistinctIds(s.clients[k].inbound)
      ensures MsgIds(s.clients[k].inbound) == Firsts(MsgIds(s.histories[k].exact))
      ensures forall m :: m in s.clients[k].inbound <==> LastArrival(s.histories[k].exact, m)
      ensures |s.clients[k].outbound| < 65534 ==> !Exhausted(s.clients[k].msgID, s.clients[k].outbound)
    {
      KeptIsNewest(s.histories[k].exact);
      KeptStaysInPlace(s.histories[k].exact);
      if |s.clients[k].outbound| < 65534 {
        RoomForOneMore(s.clients[k].msgID, s.clients[k].outbound);
      }
    }
    if s.clients == [] {
      NoReferences(s.publications);
    }
  }

  lemma NoReferences(publications: seq<Publication>)
    requires multiset(Ids(publications)) == multiset{}
    ensures publications == []
  {
    assert |multiset(Ids(publications))| == |publications|;
  }

  ghost predicate Started(k: nat, topic: seq<Byte>, payload: seq<Byte>, qos: int, retained: int,
                          o: Outcome, a: State, b: State)
    requires k < |a.clients|
  {
    var c := a.clients[k];
    if Exhausted(c.msgID, c.outbound) then o == Token(None) && b == a
    else
      && o.Token? && o.token.Some?
      && var id := o.token.value;
      && 1 <= id <= 65535 && !InUse(c.outbound, id) && FirstFree(c.msgID, c.outbound, id)
      && b.clients == a.clients[k :=
           c.(msgID := id, outbound := c.outbound + [Message(id, qos, retained, a.next)])]
      && b.publications == a.publications + [Publication(a.next, topic, payload, 1)]
      && b.histories == a.histories && b.run == a.run
  }

  ghost predicate Confirmed(k: nat, id: int, a: State, b: State)
    requires k < |a.clients|
  {
    var c := a.clients[k];
    var i := Acknowledged(c.outbound, id);
    if i < 0 then b == a
    else
      && b.clients == a.clients[k := c.(outbound := RemoveAt(c.outbound, i))]
      && b.histories == a.histories && b.run == a.run
      && |b.publications| == |a.publications| - 1
      && (forall q :: q in b.publications ==> q in a.publications)
  }

  ghost predicate Arrived(k: nat, p: Inbound, pending: bool, a: State, b: State)
    requires k < |a.clients| == |a.histories|
  {
    var c, h, m := a.clients[k], a.histories[k], Message(p.msgId, 2, p.retain, a.next);
    var e := EntryOf(p, a.next);
    && Carries(e, p)
    && b.clients == a.clients[k := c.(
         messageQueue := if 0 <= p.qos <= 1 then c.messageQueue + [e] else c.messageQueue,
         inbound := if p.qos == 2 then Keep(c.inbound, m) else c.inbound,
         outboundQueue := QueueAfter(c.outboundQueue, p, pending))]
    && b.histories == a.histories[k := h.(
         received := if 0 <= p.qos <= 1 then h.received + [e] else h.received,
         acks := if p.qos == 1 then h.acks + [Ack(p.msgId, pending)] else h.acks,
         exact := if p.qos == 2 then h.exact + [m] else h.exact,
         behind := if p.qos == 2 && pending then h.behind + [p.msgId] else h.behind)]
    && b.run == a.run && (p.qos != 2 ==> b.publications == a.publications)
    && (forall q :: q in b.publications ==> q in a.publications || q == Publication(a.next, p.topic, p.payload, 1))
  }

  ghost predicate Given(k: nat, callback: bool, o: Outcome, a: State, b: State)
    requires k < |a.clients|
  {
    var c := a.clients[k];
    if c.messageQueue != [] && callback && a.run == None then
      o == Handed(Some(c.messageQueue[0])) && b == a.(run := Some(Delivery(c.handle, c.messageQueue[0])))
    else o == Handed(None) && b == a
  }

  /** The entry that leaves the queue and is taken is the one that was handed out, at the head;
      the delivery dangles exactly when its client has gone. */
  ghost predicate Delivered(rc: bool, end: DeliveryEnd, a: State, b: State)
    requires |a.histories| == |a.clients|
  {
    if a.run == None then end == Idle && b == a
    else
      var d := a.run.value;
      var k := HandleAt(a.clients, d.handle);
      if k < 0 then end == Dangling && b == a.(run := None)
      else
        && end == Ended && b.run == None && b.publications == a.publications && b.next == a.next
        && var c, h := a.clients[k], a.histories[k];
        && c.messageQueue != [] && c.messageQueue[0] == d.qe
        && b.clients == (if rc then a.clients[k := c.(messageQueue := c.messageQueue[1..])] else a.clients)
        && b.histories == if rc then a.histories[k := h.(taken := h.taken + [d.qe])] else a.histories
  }

  /** What an event does. An event for a client that is not there and a send with QoS 0 are
      ignored. */
  ghost predicate Stepped(e: Event, o: Outcome, a: State, b: State)
    requires |a.histories| == |a.clients|
  {
    match e
    case Created =>
      && o == Done && b.clients == a.clients + [Client(a.next, 0, [], [], [], [])]
      && b.histories == a.histories + [History([], [], [], [], [])]
      && b.publications == a.publications && b.run == a.run
    case Published(k, topic, payload, qos, retained) =>
      if k < |a.clients| && qos > 0 then Started(k, topic, payload, qos, retained, o, a, b) else o == Done && b == a
    case PubackIn(k, id) => o == Done && if k < |a.clients| then Confirmed(k, id, a, b) else b == a
    case PublishIn(k, p, pending) => o == Done && if k < |a.clients| then Arrived(k, p, pending, a, b) else b == a
    case Called(k, callback) => if k < |a.clients| then Given(k, callback, o, a, b) else o == Done && b == a
    case Returned(rc) => o.Finished? && Delivered(rc, o.end, a, b)
    case Freed(k) =>
      && o == Done
      && if k < |a.clients| then
           && b.clients == RemoveAt(a.clients, k) && b.histories == RemoveAt(a.histories, k) && b.run == a.run
           && (forall q :: q in b.publications ==> q in a.publications)
         else b == a
  }

  // ----- what came, by the events alone

  datatype Arrival = Arrival(p: Inbound, pending: bool)

  /** The messages that came for each client there is after a run, in order. */
  function Arrivals(events: seq<Event>): (r: seq<seq<Arrival>>) {
    if events == [] then []
    else
      var before := Arrivals(events[..|events| - 1]);
      match events[|events| - 1]
      case Created => before + [[]]
      case PublishIn(k, p, pending) => if k < |before| then before[k := before[k] + [Arrival(p, pending)]] else before
      case Freed(k) => if k < |before| then RemoveAt(before, k) else before
      case _ => before
  }

  /** Those of QoS 0 and 1. */
  function Deliverable(came: seq<Arrival>): (r: seq<Inbound>) {
    if came == [] then []
    else
      var rest, p := Deliverable(came[..|came| - 1]), came[|came| - 1].p;
      if p.qos == 0 || p.qos == 1 then rest + [p] else rest
  }

  /** The ids of those of QoS 2. */
  function ExactIds(came: seq<Arrival>): (r: seq<int>) {
    if came == [] then []
    else
      var rest, p := ExactIds(came[..|came| - 1]), came[|came| - 1].p;
      if p.qos == 2 then rest + [p.msgId] else rest
  }

  /** The PUBACKs due: one for every message of QoS 1, queued when output was pending. */
  function AcksDue(came: seq<Arrival>): (r: seq<Ack>) {
    if came == [] then []
    else
      var rest, last := AcksDue(came[..|came| - 1]), came[|came| - 1];
      if last.p.qos == 1 then rest + [Ack(last.p.msgId, last.pending)] else rest
  }

  /** The acknowledgements that wait: PUBACKs and PUBRECs for what came behind pending output. */
  function Waiting(came: seq<Arrival>): (r: seq<AckRequest>) {
    if came == [] then []
    else
      var rest, last := Waiting(came[..|came| - 1]), came[|came| - 1];
      if !last.pending then rest
      else if last.p.qos == 1 then rest + [AckRequest(last.p.msgId, Puback)]
      else if last.p.qos == 2 then rest + [AckRequest(last.p.msgId, Pubrec)]
      else rest
  }

  lemma ArrivalSnoc(came: seq<Arrival>, a: Arrival)
    ensures Deliverable(came + [a]) == if 0 <= a.p.qos <= 1 then Deliverable(came) + [a.p] else Deliverable(came)
    ensures ExactIds(came + [a]) == if a.p.qos == 2 then ExactIds(came) + [a.p.msgId] else ExactIds(came)
    ensures AcksDue(came + [a]) == if a.p.qos == 1 then AcksDue(came) + [Ack(a.p.msgId, a.pending)] else AcksDue(came)
    ensures Waiting(came + [a]) == QueueAfter(Waiting(came), a.p, a.pending)
  {
    assert (came + [a])[..|came|] == came;
  }

  ghost predicate CarriesAll(es: seq<QEntry>, ps: seq<Inbound>) {
    |es| == |ps| && forall i :: 0 <= i < |es| ==> Carries(es[i], ps[i])
  }

  /** What a client received, acknowledged, queued and kept is what came for it. */
  ghost predicate Accounts(c: Client, h: History, came: seq<Arrival>) {
    && CarriesAll(h.received, Deliverable(came))
    && h.acks == AcksDue(came) && c.outboundQueue == Waiting(came)
    && MsgIds(h.exact) == ExactIds(came)
  }

  ghost predicate Tracked(a: State, came: seq<seq<Arrival>>) {
    && |a.clients| == |a.histories| == |came|
    && forall k :: 0 <= k < |came| ==> Accounts(a.clients[k], a.histories[k], came[k])
  }

  lemma TracksArrival(k: nat, p: Inbound, pending: bool, a: State, b: State, came: seq<seq<Arrival>>)
    requires Tracked(a, came) && k < |came| && Arrived(k, p, pending, a, b)
    ensures Tracked(b, came[k := came[k] + [Arrival(p, pending)]])
  {
    hide Keep, Carries, Deliverable, ExactIds, AcksDue, Waiting;
    ArrivalSnoc(came[k], Arrival(p, pending));
    var h := a.histories[k];
    var m := Message(p.msgId, 2, p.retain, a.next);
    assert Accounts(a.clients[k], h, came[k]);
    assert MsgIds(h.exact + [m]) == MsgIds(h.exact) + [m.msgid];
    assert CarriesAll(h.received + [EntryOf(p, a.next)], Deliverable(came[k]) + [p]);
    hide QueueAfter;
    assert Accounts(b.clients[k], b.histories[k], came[k] + [Arrival(p, pending)]);
    hide Accounts;
  }

  lemma NothingCame(handle: nat)
    ensures Accounts(Client(handle, 0, [], [], [], []), History([], [], [], [], []), [])
  {
    assert MsgIds([]) == [];
  }

  /** Nothing but an arrival changes what is accounted for. */
  lemma StepTracks(e: Event, o: Outcome, a: State, b: State, events: seq<Event>)
    requires Tracked(a, Arrivals(events)) && Stepped(e, o, a, b)
    ensures Tracked(b, Arrivals(events + [e]))
  {
    hide Arrived, Keep, Carries, Deliverable, ExactIds, AcksDue, Waiting, FirstFree, Exhausted, InUse, CarriesAll;
    hide MsgIds;
    assert (events + [e])[..|events|] == events;
    NothingCame(a.next);
    if e.PublishIn? && e.k < |a.clients| {
      TracksArrival(e.k, e.p, e.pending, a, b, Arrivals(events));
    }
  }

  /** One step of a run. */
  method Perform(s: ClientStates, e: Event) returns (o: Outcome)
    requires s.Valid()
    modifies s
    ensures s.Valid()
    ensures Stepped(e, o, old(s.Seen()), s.Seen())
  {
    hide Refs, Conserved, GoodInbound, GoodOutbound, Exhausted, FirstFree, InUse, Arrived, Delivered, Addressed;
    o := Done;
    match e
    case Created =>
      var k := s.Create();
    case Published(k, topic, payload, qos, retained) =>
      if k < |s.clients| && qos > 0 {
        var token := s.Publish(k, topic, payload, qos, retained);
        o := Token(token);
      }
    case PubackIn(k, id) =>
      if k < |s.clients| {
        s.HandlePuback(k, id);
      }
    case PublishIn(k, p, pending) =>
      if k < |s.clients| {
        s.HandlePublish(k, p, pending);
      }
    case Called(k, callback) =>
      if k < |s.clients| {
        var qe := s.BeginDelivery(k, callback);
        o := Handed(qe);
      }
    case Returned(rc) =>
      var end := s.EndDelivery(rc);
      o := Finished(end);
    case Freed(k) =>
      if k < |s.clients| {
        s.Free(k);
      }
  }

  /** Every run of every number of clients keeps the ids distinct and in range, the store in
      step with the messages, the deliveries complete and in order, and every QoS 1 message
      acknowledged; the trace holds the state after every event. */
  method RunAll(events: seq<Event>) returns (s: ClientStates, outcomes: seq<Outcome>, ghost trace: seq<State>)
    ensures fresh(s) && s.Valid() && |outcomes| == |events| && |trace| == |events| + 1
    ensures trace[0] == State([], [], 0, [], None) && trace[|events|] == s.Seen()
    ensures forall i :: 0 <= i < |events| ==>
      |trace[i].histories| == |trace[i].clients| && Stepped(events[i], outcomes[i], trace[i], trace[i + 1])
    ensures forall k :: 0 <= k < |s.clients| ==>
      && DistinctIds(s.clients[k].outbound)
      && s.histories[k].received == s.histories[k].taken + s.clients[k].messageQueue
      && AckIds(s.histories[k].acks) == AckableIds(s.histories[k].received)
      && QueuedIds(s.histories[k].acks) == PubackIds(s.clients[k].outboundQueue)
      && PubrecIds(s.clients[k].outboundQueue) == s.histories[k].behind
    ensures Tracked(s.Seen(), Arrivals(events))
    ensures s.clients == [] ==> s.publications == []
  {
    hide Stepped, Conserved, GoodOutbound, GoodInbound, Exhausted, LastArrival, Addressed, AllRefs, Ids;
    hide MsgIds, Firsts, AckIds, QueuedIds, PubackIds, AckableIds, DistinctIds;
    s := new ClientStates();
    outcomes, trace := [], [s.Seen()];
    for n := 0 to |events|
      invariant fresh(s) && s.Valid() && |outcomes| == n && Tracked(s.Seen(), Arrivals(events[..n]))
      invariant |trace| == n + 1 && trace[n] == s.Seen() && trace[0] == State([], [], 0, [], None)
      invariant forall i :: 0 <= i < n ==>
        |trace[i].histories| == |trace[i].clients| && Stepped(events[i], outcomes[i], trace[i], trace[i + 1])
    {
      ghost var before := s.Seen();
      var o := Perform(s, events[n]);
      StepTracks(events[n], o, before, s.Seen(), events[..n]);
      assert events[..n + 1] == events[..n] + [events[n]];
      outcomes := outcomes + [o];
      trace := trace + [s.Seen()];
    }
    assert events[..|events|] == events;
    ValidMeans(s);
  }

  // ----- a run in which a client is destroyed while its callback runs

  /** MQTTClient_destroy gets the mutex during the callback: the delivery then ends on a client
      that is gone. */
  method DestroyInCallback(p: Inbound) returns (s: ClientStates, end: DeliveryEnd)
    requires p.qos == 0
    ensures fresh(s) && s.Valid() && s.clients == [] && end == Dangling
  {
    hide Conserved, GoodInbound, GoodOutbound, Addressed;
    s := new ClientStates();
    var k := s.Create();
    s.HandlePublish(0, p, false);
    var qe := s.BeginDelivery(0, true);
    s.Free(0);
    end := s.EndDelivery(true);
  }

  // ----- a run that ends with a free id refused

  /** The ids from first to first + |ms| - 1 are in flight, in order. */
  ghost predicate InOrder(ms: seq<Message>, first: int) {
    forall i :: 0 <= i < |ms| ==> ms[i].msgid == first + i && ms[i].qos == 1
  }

  lemma InOrderInUse(ms: seq<Message>, first: int, id: int)
    requires InOrder(ms, first)
    ensures InUse(ms, id) <==> first <= id < first + |ms|
  {
    if first <= id < first + |ms| {
      assert MsgIds(ms)[id - first] == id;
    }
  }

  lemma FirstTried(start: int, out: seq<Message>, id: int)
    requires FirstFree(start, out, id) && !InUse(out, Nth(start, 0))
    ensures id == Nth(start, 0)
  {
    var j: nat :| id == Nth(start, j) && TakenUpTo(start, out, j);
  }

  /** After the ids 1 to n the next one is n + 1. */
  lemma NextInOrder(ms: seq<Message>, n: nat, id: int)
    requires InOrder(ms, 1) && |ms| == n < MAX_MSG_ID
    ensures !Exhausted(n, ms)
    ensures FirstFree(n, ms, id) ==> id == n + 1
  {
    InOrderInUse(ms, 1, n + 1);
    NthSteps(n, 0);
    if FirstFree(n, ms, id) {
      FirstTried(n, ms, id);
    }
  }

  /** With 65535 given last and 2 to 65535 in flight the next one is 1. */
  lemma NextIsOne(ms: seq<Message>, id: int)
    requires InOrder(ms, 2) && |ms| == MAX_MSG_ID - 1
    ensures !Exhausted(MAX_MSG_ID, ms)
    ensures FirstFree(MAX_MSG_ID, ms, id) ==> id == 1
  {
    InOrderInUse(ms, 2, 1);
    NthSteps(MAX_MSG_ID, 0);
    if FirstFree(MAX_MSG_ID, ms, id) {
      FirstTried(MAX_MSG_ID, ms, id);
    }
  }

  /** Publish 65535 messages, confirm the first, publish one and confirm that: id 1 is free,
      and the next publish is refused. */
  method RefuseFreeId() returns (s: ClientStates, token: Option<int>)
    ensures fresh(s) && s.Valid() && |s.clients| == 1 && token == None
    ensures s.clients[0].msgID == 1 && !InUse(s.clients[0].outbound, 1)
  {
    hide Exhausted, FirstFree, InUse, Conserved, GoodInbound, GoodOutbound;
    s := new ClientStates();
    var k := s.Create();
    for n := 0 to MAX_MSG_ID
      invariant fresh(s) && s.Valid() && |s.clients| == 1
      invariant s.clients[0].msgID == n == |s.clients[0].outbound| && InOrder(s.clients[0].outbound, 1)
    {
      ghost var c := s.clients[0];
      var t := s.Publish(0, [], [], 1, 0);
      NextInOrder(c.outbound, n, s.clients[0].msgID);
    }
    ghost var all := s.clients[0].outbound;
    s.HandlePuback(0, 1);
    ghost var some := s.clients[0].outbound;
    assert all[0].msgid == 1 && some == RemoveAt(all, 0);
    NextIsOne(some, 1);
    token := s.Publish(0, [], [], 1, 0);
    NextIsOne(some, s.clients[0].msgID);
    ghost var more := s.clients[0].outbound;
    assert more[|some|].msgid == 1;
    s.HandlePuback(0, 1);
    assert s.clients[0].outbound == some;
    InOrderInUse(some, 2, 1);
    OthersTaken(some);
    token := s.Publish(0, [], [], 1, 0);
  }

  lemma OthersTaken(ms: seq<Message>)
    requires InOrder(ms, 2) && |ms| == MAX_MSG_ID - 1
    ensures Exhausted(1, ms)
  {
    forall id | 1 <= id <= MAX_MSG_ID && id != 1 ensures InUse(ms, id) {
      InOrderInUse(ms, 2, id);
    }
  }

  /** The position of the QoS 1 message a PUBACK acknowledges, or -1. */
  function Acknowledged(out: seq<Message>, msgId: int): (k: int)
    ensures -1 <= k < |out|
    ensures k >= 0 ==> out[k].msgid == msgId && out[k].qos == 1
    ensures k == -1 ==> forall i :: 0 <= i < |out| ==> out[i].msgid != msgId || out[i].qos != 1
  {
    if out == [] then -1
    else
      var k := Acknowledged(out[1..], msgId);
      if out[0].msgid == msgId && out[0].qos == 1 then 0 else if k < 0 then -1 else k + 1
  }

  /** With distinct ids, the first message with the id is the only one that can be it. */
  lemma AcknowledgedIsFound(out: seq<Message>, msgId: int, i: int)
    requires DistinctIds(out) && -1 <= i < |out|
    requires i >= 0 ==> out[i].msgid == msgId
    requires i == -1 ==> !InUse(out, msgId)
    ensures Acknowledged(out, msgId) == if i >= 0 && out[i].qos == 1 then i else -1
  {
    if i == -1 {
      NotInUse(out, msgId);
    }
  }

  lemma SameAcks(c: Client, h: History, after: Client, now: History)
    requires GoodAcks(c, h) && after.outboundQueue == c.outboundQueue
    requires now.acks == h.acks && now.received == h.received && now.behind == h.behind
    ensures GoodAcks(after, now)
  {
  }

  lemma SameInbound(c: Client, after: Client, h: History)
    requires GoodInbound(c, h) && after.inbound == c.inbound && after.messageQueue == c.messageQueue
    requires after.outboundQueue == c.outboundQueue
    ensures GoodInbound(after, h)
  {
  }

  lemma NotInUse(ms: seq<Message>, id: int)
    requires !InUse(ms, id)
    ensures forall i :: 0 <= i < |ms| ==> ms[i].msgid != id
  {
    forall i | 0 <= i < |ms| ensures ms[i].msgid != id {
      assert MsgIds(ms)[i] == ms[i].msgid;
    }
  }

  lemma OneMoreInFlight(c: Client, m: Message)
    requires GoodOutbound(c) && !InUse(c.outbound, m.msgid)
    requires c.msgID == m.msgid && 1 <= m.msgid <= MAX_MSG_ID && m.qos > 0
    ensures GoodOutbound(c.(outbound := c.outbound + [m]))
    ensures Refs(c.(outbound := c.outbound + [m])) == Refs(c) + multiset{m.pub}
  {
    NotInUse(c.outbound, m.msgid);
    assert Pubs(c.outbound + [m]) == Pubs(c.outbound) + [m.pub];
  }

  lemma OneLessInFlight(c: Client, i: nat)
    requires GoodOutbound(c) && i < |c.outbound|
    ensures GoodOutbound(c.(outbound := RemoveAt(c.outbound, i)))
    ensures Refs(c) == Refs(c.(outbound := RemoveAt(c.outbound, i))) + multiset{c.outbound[i].pub}
    ensures c.outbound[i].pub in Refs(c)
  {
    RemovedRef(c, i);
  }

  lemma RemovedRef(c: Client, i: nat)
    requires i < |c.outbound|
    ensures Refs(c) == Refs(c.(outbound := RemoveAt(c.outbound, i))) + multiset{c.outbound[i].pub}
    ensures c.outbound[i].pub in Refs(c)
  {
    MultisetRemoveAt(Pubs(c.outbound), i);
    assert Pubs(RemoveAt(c.outbound, i)) == RemoveAt(Pubs(c.outbound), i);
  }

  lemma HeadRef(c: Client, j: nat, out: seq<Message>)
    requires j < |out| && c.outbound == out[j..]
    ensures out[j].pub in Refs(c)
    ensures Refs(c) == Refs(c.(outbound := out[j + 1..])) + multiset{out[j].pub}
  {
    assert Pubs(out[j..]) == [out[j].pub] + Pubs(out[j + 1..]);
  }

  lemma HeadInboundRef(c: Client, j: nat, inb: seq<Message>)
    requires j < |inb| && c.inbound == inb[j..]
    ensures inb[j].pub in Refs(c)
    ensures Refs(c) == Refs(c.(inbound := inb[j + 1..])) + multiset{inb[j].pub}
  {
    assert Pubs(inb[j..]) == [inb[j].pub] + Pubs(inb[j + 1..]);
  }

  lemma RemoveEmptyClient(clients: seq<Client>, publications: seq<Publication>, next: nat, k: nat)
    requires Conserved(clients, publications, next) && k < |clients|
    requires clients[k].outbound == [] && clients[k].inbound == []
    ensures Conserved(RemoveAt(clients, k), publications, next)
  {
    AllRefsRemove(clients, k);
    assert Pubs([]) == [];
  }

  lemma KeptSnoc(arrived: seq<Message>, m: Message)
    ensures var k := Position(Kept(arrived), m.msgid);
      Kept(arrived + [m]) == if k >= 0 then Kept(arrived)[k := m] else Kept(arrived) + [m]
  {
    assert (arrived + [m])[..|arrived|] == arrived;
  }

  lemma FoundIsPosition(ms: seq<Message>, id: int, k: int)
    requires DistinctIds(ms) && -1 <= k < |ms|
    requires k >= 0 ==> ms[k].msgid == id
    requires k == -1 ==> !InUse(ms, id)
    ensures Position(ms, id) == k
  {
    if k == -1 {
      NotInUse(ms, id);
    }
  }

  lemma KeepsOutbound(c: Client, after: Client)
    requires GoodOutbound(c) && after.outbound == c.outbound && after.msgID == c.msgID
    ensures GoodOutbound(after)
  {
  }

  lemma AppendedRef(c: Client, m: Message)
    ensures Refs(c.(inbound := c.inbound + [m])) == Refs(c) + multiset{m.pub}
  {
    assert Pubs(c.inbound + [m]) == Pubs(c.inbound) + [m.pub];
  }

  /** Insertion adds the reference of the new message, removal of the old one drops its own. */
  lemma InboundRefs(c: Client, i: nat, m: Message)
    requires i < |c.inbound|
    ensures var both := c.(inbound := InsertAt(c.inbound, i, m));
      && Refs(both) == Refs(c) + multiset{m.pub}
      && c.inbound[i].pub in Refs(both)
      && Refs(both) == Refs(c.(inbound := RemoveAt(both.inbound, i + 1))) + multiset{c.inbound[i].pub}
  {
    var both := InsertAt(c.inbound, i, m);
    var ps := Pubs(c.inbound);
    assert Pubs(both) == ps[..i] + [m.pub] + ps[i..];
    assert ps == ps[..i] + ps[i..];
    MultisetRemoveAt(Pubs(both), i + 1);
    assert Pubs(RemoveAt(both, i + 1)) == RemoveAt(Pubs(both), i + 1);
    assert Pubs(both)[i + 1] == c.inbound[i].pub;
  }
}
