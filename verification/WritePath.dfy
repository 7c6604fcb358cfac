/** The partial-write path and the socket registry: Socket_putdatas, Socket_continueWrite(s),
    Socket_addSocket and Socket_close of src/utils/Socket.c with select, and the output half
    of src/utils/SocketBuffer.c. */
module WritePath {
  import opened Common
  import opened ListSpec
  import opened Framing
  import opened Packets

  const FD_SETSIZE := 1024

  /** FD_SET: a descriptor beyond the capacity of the set is not recorded in it; what is written
      instead lies outside. */
  function FdSet(fds: set<int>, s: int): set<int> {
    if s < FD_SETSIZE then fds + {s} else fds
  }

  /** pending_writes: a packet of which `bytes` of `total` bytes are written. */
  datatype PendingWrite = PendingWrite(socket: int, total: nat, bytes: nat, iovecs: seq<seq<Byte>>) {
    ghost predicate Sound() {
      total == |Concat(iovecs)| && bytes <= total
    }
  }

  datatype WriteResult = Written(n: nat) | WouldBlock | Failed
  datatype Call = Call(socket: int, answer: WriteResult)
  datatype Setting = Setting(socket: int, rc: int)
  datatype PutResult = Complete | Interrupted | SocketError

  /** intcompare against one socket. */
  function Is(s: int): int -> bool {
    x => x == s
  }

  ghost predicate Distinct(items: seq<int>) {
    forall i, j :: 0 <= i < j < |items| ==> items[i] != items[j]
  }

  ghost function Elements(items: seq<int>): set<int> {
    set x | x in items
  }

  /** In a list of distinct sockets the search finds s exactly when it is there, and the
      removal takes out s alone. */
  lemma UnlinkSocket(v: ListView<int>, s: int)
    requires WellFormed(v) && Distinct(v.items)
    ensures FindIndex(v, Is(s)) >= 0 <==> s in v.items
    ensures Distinct(AfterUnlink(v, Is(s)).items)
    ensures Elements(AfterUnlink(v, Is(s)).items) == Elements(v.items) - {s}
  {
    var k := FindIndex(v, Is(s));
    if k >= 0 {
      var r := AfterUnlink(v, Is(s)).items;
      forall x | x in v.items && x != s ensures x in r {
        var i :| 0 <= i < |v.items| && v.items[i] == x;
        assert r[if i < k then i else i - 1] == x;
      }
    }
  }

  /** ListFindItem in a list of sockets. */
  method Find(v: ListView<int>, s: int) returns (found: bool, after: ListView<int>)
    requires WellFormed(v) && Distinct(v.items)
    ensures found <==> s in v.items
    ensures after == AfterFind(v, Is(s)) && after.items == v.items && WellFormed(after)
  {
    UnlinkSocket(v, s);
    found := FindIndex(v, Is(s)) >= 0;
    after := AfterFind(v, Is(s));
  }

  /** ListRemoveItem in a list of sockets. */
  method Unlink(v: ListView<int>, s: int) returns (removed: bool, after: ListView<int>)
    requires WellFormed(v) && Distinct(v.items)
    ensures removed <==> s in v.items
    ensures after == AfterUnlink(v, Is(s)) && WellFormed(after)
    ensures Distinct(after.items) && Elements(after.items) == Elements(v.items) - {s}
    ensures |after.items| == |v.items| - (if removed then 1 else 0)
  {
    UnlinkSocket(v, s);
    removed := FindIndex(v, Is(s)) >= 0;
    after := AfterUnlink(v, Is(s));
  }

  lemma IteratorSurvives(v: ListView<int>, s: int, at: nat)
    requires WellFormed(v) && at < |v.items| && v.items[at] != s
    ensures var k, left := FindIndex(v, Is(s)), AfterUnlink(v, Is(s)).items;
      var after := if 0 <= k < at then at - 1 else at;
      0 <= after < |left| && left[after] == v.items[at]
    ensures FindIndex(v, Is(s)) >= 0 <==> s in v.items
  {
    assert s in v.items <==> exists j :: 0 <= j < |v.items| && v.items[j] == s;
  }

  lemma {:induction false} DistinctSize(items: seq<int>)
    requires Distinct(items)
    ensures |Elements(items)| == |items|
  {
    if items != [] {
      var n := |items| - 1;
      DistinctSize(items[..n]);
      assert items == items[..n] + [items[n]];
      assert Elements(items) == Elements(items[..n]) + {items[n]};
    } else {
      assert Elements(items) == {};
    }
  }

  lemma AppendSocket(items: seq<int>, s: int)
    requires Distinct(items) && s !in items
    ensures Distinct(items + [s]) && Elements(items + [s]) == Elements(items) + {s}
  {
  }

  lemma TailOfSum(a: seq<Byte>, b: seq<Byte>, n: nat)
    requires n <= |a| + |b|
    ensures (a + b)[n..] == if n <= |a| then a[n..] + b else b[n - |a|..]
  {
  }

  /** The part of b behind its first n bytes, empty when there are fewer. */
  function From(b: seq<Byte>, n: nat): seq<Byte> {
    if n <= |b| then b[n..] else []
  }

  /** The rest of a list of buffers once `bytes` of it are written: whole buffers, and the
      tail of the one the count ends in. */
  method Remaining(iovecs: seq<seq<Byte>>, bytes: nat) returns (rest: seq<seq<Byte>>)
    ensures Concat(rest) == From(Concat(iovecs), bytes)
    ensures |rest| <= |iovecs|
  {
    rest := [];
    var curbuflen: nat := 0;
    ghost var before: seq<Byte> := [];
    for i := 0 to |iovecs|
      invariant before == Concat(iovecs[..i]) && curbuflen == |before| && |rest| <= i
      invariant Concat(rest) == From(before, bytes)
    {
      var buf := iovecs[i];
      assert iovecs[..i + 1] == iovecs[..i] + [buf];
      ConcatSnoc(iovecs[..i], buf);
      if bytes <= curbuflen {
        ConcatSnoc(rest, buf);
        rest := rest + [buf];
        TailOfSum(before, buf, bytes);
      } else if bytes < curbuflen + |buf| {
        var offset := bytes - curbuflen;
        ConcatSnoc(rest, buf[offset..]);
        rest := rest + [buf[offset..]];
        TailOfSum(before, buf, bytes);
      }
      curbuflen := curbuflen + |buf|;
      before := before + buf;
    }
    assert iovecs[..|iovecs|] == iovecs;
  }

  /** The loops that add up buffer lengths. */
  method TotalLength(buffers: seq<seq<Byte>>) returns (total: nat)
    ensures total == |Concat(buffers)|
  {
    total := 0;
    for i := 0 to |buffers|
      invariant total == |Concat(buffers[..i])|
    {
      assert buffers[..i + 1] == buffers[..i] + [buffers[i]];
      ConcatSnoc(buffers[..i], buffers[i]);
      total := total + |buffers[i]|;
    }
    assert buffers[..|buffers|] == buffers;
  }

  type Streams = map<int, seq<Byte>>
  type Accepted = map<int, seq<seq<Byte>>>

  ghost predicate NotPending(writes: seq<PendingWrite>, s: int) {
    forall i :: 0 <= i < |writes| ==> writes[i].socket != s
  }

  /** The wire of a socket with a pending write: whole packets, and of the last one exactly
      the first `bytes` bytes. */
  ghost predicate PartlyWritten(wire: seq<Byte>, accepted: seq<seq<Byte>>, pw: PendingWrite) {
    && pw.Sound() && accepted != []
    && accepted[|accepted| - 1] == Concat(pw.iovecs)
    && wire == Concat(accepted[..|accepted| - 1]) + Concat(pw.iovecs)[..pw.bytes]
  }

  /** Every open socket but `but` and those where a packet was abandoned half-way: the wire
      carries the accepted packets, each once, in order and in one piece. */
  ghost predicate Accounted(writes: seq<PendingWrite>, wire: Streams, accepted: Accepted, broken: set<int>, but: int) {
    && wire.Keys == accepted.Keys && -1 !in wire
    && (forall i, j :: 0 <= i < j < |writes| ==> writes[i].socket != writes[j].socket)
    && (forall i :: 0 <= i < |writes| ==> writes[i].Sound() && writes[i].socket in wire)
    && (forall i :: 0 <= i < |writes| && writes[i].socket != but && writes[i].socket !in broken ==>
          PartlyWritten(wire[writes[i].socket], accepted[writes[i].socket], writes[i]))
    && (forall s :: s in wire && s != but && s !in broken && NotPending(writes, s) ==>
          wire[s] == Concat(accepted[s]))
  }

  /** Such a wire is the accepted packets up to some point inside the last one. */
  lemma PartOfPackets(wire: seq<Byte>, accepted: seq<seq<Byte>>, pw: PendingWrite)
    requires PartlyWritten(wire, accepted, pw)
    ensures wire + Concat(pw.iovecs)[pw.bytes..] == Concat(accepted)
    ensures Concat(accepted[..|accepted| - 1]) <= wire <= Concat(accepted)
  {
    hide Concat;
    var init, packet := accepted[..|accepted| - 1], Concat(pw.iovecs);
    InitAndLast(accepted);
    ConcatSnoc(init, packet);
    CutPacket(Concat(init), packet, pw.bytes);
  }

  lemma CutPacket(before: seq<Byte>, packet: seq<Byte>, n: nat)
    requires n <= |packet|
    ensures (before + packet[..n]) + packet[n..] == before + packet
    ensures before <= before + packet[..n] <= before + packet
  {
  }

  /** Exactly one more pending write, for s. */
  ghost predicate OneMorePending(before: seq<PendingWrite>, writes: seq<PendingWrite>, s: int) {
    |writes| == |before| + 1 && writes[..|before|] == before && writes[|before|].socket == s
  }

  ghost function Pending(writes: seq<PendingWrite>): set<int> {
    set i | 0 <= i < |writes| :: writes[i].socket
  }

  // ----- the calls of writev from the n-th on

  ghost function TriedSince(calls: seq<Call>, n: nat): set<int> {
    set i | n <= i < |calls| :: calls[i].socket
  }

  ghost predicate FailedSince(calls: seq<Call>, n: nat) {
    exists i :: n <= i < |calls| && calls[i].answer.Failed?
  }

  /** Exactly one more call, for s. */
  ghost predicate OneMore(before: seq<Call>, calls: seq<Call>, s: int) {
    |calls| == |before| + 1 && calls[..|before|] == before && calls[|before|].socket == s
  }

  lemma OneMoreCall(before: seq<Call>, calls: seq<Call>, s: int, n: nat)
    requires OneMore(before, calls, s) && n <= |before|
    ensures TriedSince(calls, n) == TriedSince(before, n) + {s}
    ensures FailedSince(calls, n) <==> FailedSince(before, n) || calls[|before|].answer.Failed?
  {
    assert forall i :: 0 <= i < |before| ==> calls[i] == before[i];
    assert TriedSince(calls, n) == (set i | n <= i < |before| :: calls[i].socket) + {s};
  }

  /** How a result of putdatas comes from the one call of writev. */
  ghost predicate PutAnswered(rc: PutResult, s: int, total: nat, before: seq<Call>, calls: seq<Call>) {
    && OneMore(before, calls, s)
    && var answer := calls[|before|].answer;
    && (rc.SocketError? <==> answer.Failed?)
    && (rc.Complete? <==> (answer == Written(total) || (total == 0 && answer.WouldBlock?)))
  }

  /** All writable sockets among the first n are tried. */
  ghost predicate TriedUpTo(items: seq<int>, writable: set<int>, n: nat, tried: set<int>)
    requires n <= |items|
  {
    forall i :: 0 <= i < n && items[i] in writable ==> items[i] in tried
  }

  lemma PendingIsSockets(writes: seq<PendingWrite>, s: int)
    ensures s in Pending(writes) <==> !NotPending(writes, s)
  {
  }

  // ----- what a change for one socket s leaves accounted for

  lemma StreamsKeepOthers(writes: seq<PendingWrite>, wire: Streams, accepted: Accepted, broken: set<int>, s: int,
                          b: seq<Byte>, ps: seq<seq<Byte>>)
    requires Accounted(writes, wire, accepted, broken, s) && s in wire
    ensures Accounted(writes, wire[s := b], accepted[s := ps], broken, s)
  {
  }

  lemma OpenKeepsOthers(writes: seq<PendingWrite>, wire: Streams, accepted: Accepted, broken: set<int>, s: int)
    requires Accounted(writes, wire, accepted, broken, -1) && s !in wire && s != -1
    ensures Accounted(writes, wire[s := []], accepted[s := []], broken, -1)
  {
    assert Concat<Byte>([]) == [];
  }

  lemma AppendKeepsOthers(writes: seq<PendingWrite>, pw: PendingWrite,
                          wire: Streams, accepted: Accepted, broken: set<int>)
    requires Accounted(writes, wire, accepted, broken, pw.socket)
    requires pw.Sound() && pw.socket in wire && NotPending(writes, pw.socket)
    ensures Accounted(writes + [pw], wire, accepted, broken, pw.socket)
  {
    var after := writes + [pw];
    forall t | t in wire && t != pw.socket && t !in broken && NotPending(after, t)
      ensures wire[t] == Concat(accepted[t])
    {
      assert forall i :: 0 <= i < |writes| ==> writes[i] == after[i];
    }
  }

  lemma UpdateAccounts(writes: seq<PendingWrite>, k: nat, pw: PendingWrite,
                       wire: Streams, accepted: Accepted, broken: set<int>)
    requires k < |writes| && writes[k].socket == pw.socket && pw.Sound()
    requires Accounted(writes, wire, accepted, broken, pw.socket)
    requires pw.socket !in broken ==> PartlyWritten(wire[pw.socket], accepted[pw.socket], pw)
    ensures Accounted(writes[k := pw], wire, accepted, broken, -1)
  {
    var after := writes[k := pw];
    forall t | t in wire && t !in broken && NotPending(after, t)
      ensures wire[t] == Concat(accepted[t])
    {
      assert t != pw.socket by {
        assert after[k] == pw;
      }
      assert forall i :: 0 <= i < |writes| ==> writes[i].socket == after[i].socket;
    }
  }

  lemma RemoveKeepsOthers(writes: seq<PendingWrite>, k: nat,
                          wire: Streams, accepted: Accepted, broken: set<int>, s: int)
    requires k < |writes| && writes[k].socket == s
    requires Accounted(writes, wire, accepted, broken, s)
    ensures Accounted(RemoveAt(writes, k), wire, accepted, broken, s)
    ensures NotPending(RemoveAt(writes, k), s)
  {
    var after := RemoveAt(writes, k);
    forall t | t in wire && t != s && t !in broken && NotPending(after, t)
      ensures wire[t] == Concat(accepted[t])
    {
      forall i | 0 <= i < |writes| ensures writes[i].socket != t {
        if i != k {
          assert after[if i < k then i else i - 1] == writes[i];
        }
      }
    }
  }

  lemma PendingAfterAppend(writes: seq<PendingWrite>, pw: PendingWrite)
    ensures Pending(writes + [pw]) == Pending(writes) + {pw.socket}
  {
    var after := writes + [pw];
    forall t | t in Pending(writes) + {pw.socket} ensures t in Pending(after) {
      if t in Pending(writes) {
        var i :| 0 <= i < |writes| && writes[i].socket == t;
        assert after[i].socket == t;
      } else {
        assert after[|writes|].socket == t;
      }
    }
  }

  lemma PendingAfterUpdate(writes: seq<PendingWrite>, k: nat, pw: PendingWrite)
    requires k < |writes| && writes[k].socket == pw.socket
    ensures Pending(writes[k := pw]) == Pending(writes)
  {
    var after := writes[k := pw];
    forall t | t in Pending(writes) ensures t in Pending(after) {
      var i :| 0 <= i < |writes| && writes[i].socket == t;
      assert after[i].socket == t;
    }
  }

  lemma PendingAfterRemove(writes: seq<PendingWrite>, k: nat)
    requires k < |writes|
    requires forall i, j :: 0 <= i < j < |writes| ==> writes[i].socket != writes[j].socket
    ensures Pending(RemoveAt(writes, k)) == Pending(writes) - {writes[k].socket}
  {
    var after := RemoveAt(writes, k);
    forall t | t in Pending(writes) && t != writes[k].socket ensures t in Pending(after) {
      var i :| 0 <= i < |writes| && writes[i].socket == t;
      assert after[if i < k then i else i - 1].socket == t;
    }
  }

  /** The three records of pending writes name the same sockets, once each. */
  ghost predicate PendingAgree(writePending: ListView<int>, writes: seq<PendingWrite>, pendingWset: set<int>) {
    && WellFormed(writePending) && Distinct(writePending.items)
    && Elements(writePending.items) == Pending(writes) == pendingWset
  }

  /** The records of open sockets agree, and maxfdp1 is one more than the largest of them. */
  ghost predicate OpenAgree(clientsds: ListView<int>, rsetSaved: set<int>, maxfdp1: int) {
    && WellFormed(clientsds) && Distinct(clientsds.items)
    && Elements(clientsds.items) == rsetSaved
    && (forall s :: s in clientsds.items ==> 0 <= s < maxfdp1)
    && (clientsds.items != [] ==> maxfdp1 - 1 in clientsds.items)
    && (clientsds.items == [] ==> 0 <= maxfdp1 <= 1)
    && (forall s :: s in rsetSaved ==> s < FD_SETSIZE)
  }

  lemma PendingIsListed(writePending: ListView<int>, writes: seq<PendingWrite>, pendingWset: set<int>, s: int)
    requires PendingAgree(writePending, writes, pendingWset)
    ensures s in writePending.items <==> !NotPending(writes, s)
    ensures forall more :: Pending(more) == Pending(writes) ==> PendingAgree(writePending, more, pendingWset)
    ensures s !in writePending.items ==> Pending(writes) - {s} == Pending(writes)
  {
    PendingIsSockets(writes, s);
    assert s in writePending.items <==> s in Elements(writePending.items);
  }

  lemma OpenBeyond(v: ListView<int>, rset: set<int>, maxfdp1: int, s: int)
    requires OpenAgree(v, rset, maxfdp1) && s >= FD_SETSIZE
    ensures forall m :: !OpenAgree(v.(items := v.items + [s]), rset, m)
  {
    var after := v.items + [s];
    assert after[|v.items|] == s && s in Elements(after) && s !in rset;
  }

  lemma OpenIsListed(clientsds: ListView<int>, rsetSaved: set<int>, maxfdp1: int, s: int)
    requires OpenAgree(clientsds, rsetSaved, maxfdp1)
    ensures Elements(clientsds.items) == rsetSaved && (s in clientsds.items <==> s in rsetSaved)
    ensures s in rsetSaved ==> s < FD_SETSIZE
  {
    assert s in clientsds.items <==> s in Elements(clientsds.items);
  }

  /** Only open sockets are recorded as being connected. */
  ghost predicate ConnectAgree(connectPending: ListView<int>, open: set<int>) {
    WellFormed(connectPending) && Distinct(connectPending.items) && Elements(connectPending.items) <= open
  }

  lemma OpenOneMore(v: ListView<int>, rset: set<int>, maxfdp1: int, s: int)
    requires OpenAgree(v, rset, maxfdp1) && s !in v.items && 0 <= s < FD_SETSIZE
    ensures OpenAgree(v.(items := v.items + [s]), rset + {s}, if maxfdp1 > s + 1 then maxfdp1 else s + 1)
  {
    AppendSocket(v.items, s);
    assert forall x :: x in v.items + [s] <==> x in v.items || x == s;
  }

  /** The loop of Socket_close that looks for the largest socket left. */
  method LargestSocket(items: seq<int>) returns (m: int)
    requires forall s :: s in items ==> s >= 0
    ensures forall s :: s in items ==> s <= m
    ensures if items == [] then m == 0 else m in items
  {
    m := 0;
    for i := 0 to |items|
      invariant forall j :: 0 <= j < i ==> items[j] <= m
      invariant if i == 0 then m == 0 else m in items
    {
      assert items[i] in items;
      m := if items[i] > m then items[i] else m;
    }
  }

  lemma CloseKeepsOthers(writes: seq<PendingWrite>, wire: Streams, accepted: Accepted, broken: set<int>, s: int)
    requires Accounted(writes, wire, accepted, broken, -1) && NotPending(writes, s)
    ensures Accounted(writes, wire - {s}, accepted - {s}, broken - {s}, -1)
  {
  }

  class SocketModule {
    var writePending: ListView<int>
    var pendingWset: set<int>
    var clientsds: ListView<int>
    var curClientsds: int
    var rsetSaved: set<int>
    var maxfdp1: int
    var writes: seq<PendingWrite>
    var connectPending: ListView<int>

    /** Per open socket: the bytes writev has taken and the packets putdatas has accepted.
        `broken` are the sockets on which a half-written packet was given up. */
    ghost var wire: Streams
    ghost var accepted: Accepted
    ghost var broken: set<int>

    /** Every call of writev, and every attempt to make a socket nonblocking, with its answer. */
    ghost var calls: seq<Call>
    ghost var settings: seq<Setting>

    ghost predicate Valid()
      reads this
    {
      && PendingAgree(writePending, writes, pendingWset)
      && OpenAgree(clientsds, rsetSaved, maxfdp1) && rsetSaved == wire.Keys
      && -1 <= curClientsds < |clientsds.items|
      && broken <= wire.Keys
      && ConnectAgree(connectPending, wire.Keys)
      && Accounted(writes, wire, accepted, broken, -1)
    }

    /** Socket_outInitialize. */
    constructor ()
      ensures Valid() && wire == map[] && accepted == map[] && broken == {}
      ensures writes == [] && clientsds.items == [] && calls == [] && settings == []
    {
      writePending, clientsds := ListView([], -1), ListView([], -1);
      pendingWset, rsetSaved := {}, {};
      curClientsds, maxfdp1, writes := -1, 0, [];
      connectPending := ListView([], -1);
      wire, accepted, broken, calls, settings := map[], map[], {}, [], [];
    }

    /** Socket_setnonblocking: a system call that answers 0 or SOCKET_ERROR. */
    method SetNonblocking(s: int) returns (rc: int)
      modifies this`settings
      ensures rc in {0, -1} && settings == old(settings) + [Setting(s, rc)]
    {
      var failed: bool := *;
      rc := if failed then -1 else 0;
      settings := settings + [Setting(s, rc)];
    }

    /** Socket_addSocket. A new socket is registered when the list has room, whatever its number:
        the records then agree exactly when the number is below the capacity of the descriptor
        set. It stays registered when it cannot be made nonblocking, and that is the result. */
    method AddSocket(newSd: int) returns (rc: int)
      requires Valid() && newSd >= 0
      modifies this
      ensures var room := newSd !in old(wire) && |old(clientsds).items| < FD_SETSIZE;
        && (Valid() <==> !room || newSd < FD_SETSIZE)
        && settings == (if room then old(settings) + [Setting(newSd, rc)] else old(settings))
        && (!room ==> rc == if newSd in old(wire) then 0 else -1)
        && wire == (if room then old(wire)[newSd := []] else old(wire))
        && accepted == (if room then old(accepted)[newSd := []] else old(accepted))
        && clientsds.items == (if room then old(clientsds).items + [newSd] else old(clientsds).items)
      ensures rc in {0, -1} && broken == old(broken) && writes == old(writes) && calls == old(calls)
      ensures connectPending == old(connectPending)
    {
      rc := 0;
      var found, after := Find(clientsds, newSd);
      clientsds := after;
      if !found {
        if |clientsds.items| >= FD_SETSIZE {
          rc := -1;
        } else {
          Register(newSd);
          rc := SetNonblocking(newSd);
        }
      }
    }

    method Register(newSd: int)
      requires Valid() && newSd >= 0 && newSd !in wire
      modifies this`clientsds, this`rsetSaved, this`maxfdp1, this`wire, this`accepted
      ensures Valid() <==> newSd < FD_SETSIZE
      ensures wire == old(wire)[newSd := []] && accepted == old(accepted)[newSd := []]
      ensures clientsds == ListView(old(clientsds).items + [newSd], old(clientsds).current)
    {
      hide PendingAgree, OpenAgree, Accounted;
      OpenIsListed(clientsds, rsetSaved, maxfdp1, newSd);
      OpenKeepsOthers(writes, wire, accepted, broken, newSd);
      if newSd < FD_SETSIZE {
        OpenOneMore(clientsds, rsetSaved, maxfdp1, newSd);
      } else {
        OpenBeyond(clientsds, rsetSaved, maxfdp1, newSd);
      }
      clientsds := clientsds.(items := clientsds.items + [newSd]);
      rsetSaved := FdSet(rsetSaved, newSd);
      maxfdp1 := if maxfdp1 > newSd + 1 then maxfdp1 else newSd + 1;
      wire, accepted := wire[newSd := []], accepted[newSd := []];
    }

    /** The end of Socket_new: a connect that is under way is recorded. */
    method StartConnect(s: int)
      requires Valid() && s in wire && s !in connectPending.items
      modifies this`connectPending
      ensures Valid() && connectPending == ListView(old(connectPending).items + [s], old(connectPending).current)
    {
      hide Accounted, PendingAgree, OpenAgree;
      AppendSocket(connectPending.items, s);
      connectPending := connectPending.(items := connectPending.items + [s]);
    }

    /** isReady: a socket being connected is ready once it is writable, and no longer being
        connected then; any other when it is readable, writable and has no pending output. */
    method IsReady(s: int, readSet: set<int>, writeSet: set<int>) returns (rc: bool)
      requires Valid()
      modifies this`connectPending, this`writePending
      ensures Valid()
      ensures rc <==> s in writeSet && (s in old(connectPending).items || (s in readSet && NotPending(writes, s)))
      ensures Elements(connectPending.items) ==
        Elements(old(connectPending).items) - (if s in writeSet then {s} else {})
    {
      hide Accounted, OpenAgree, AfterUnlink, AfterFind;
      var found, after := Find(connectPending, s);
      connectPending := after;
      if found && s in writeSet {
        var removed, left := Unlink(connectPending, s);
        connectPending := left;
        rc := true;
      } else {
        rc := s in readSet && s in writeSet;
        if rc {
          rc := NoPendingWrites(s);
        }
      }
    }

    /** SocketBuffer_getWrite and the searches in `writes`. */
    method WriteOf(s: int) returns (k: int)
      ensures -1 <= k < |writes|
      ensures k >= 0 ==> writes[k].socket == s
      ensures k == -1 ==> NotPending(writes, s)
    {
      k := 0;
      while k < |writes|
        invariant 0 <= k <= |writes|
        invariant forall j :: 0 <= j < k ==> writes[j].socket != s
      {
        if writes[k].socket == s {
          return;
        }
        k := k + 1;
      }
      k := -1;
    }

    /** Socket_writev: the system takes any number of bytes off the front, or none. */
    method Writev(s: int, iovecs: seq<seq<Byte>>) returns (r: WriteResult)
      requires s in wire
      modifies this`wire, this`calls
      ensures calls == old(calls) + [Call(s, r)]
      ensures r.Written? ==> r.n <= |Concat(iovecs)|
      ensures r.Written? ==> wire == old(wire)[s := old(wire[s]) + Concat(iovecs)[..r.n]]
      ensures !r.Written? ==> wire == old(wire)
    {
      var data := Concat(iovecs);
      var n: int := *;
      if 0 <= n <= |data| {
        wire := wire[s := wire[s] + data[..n]];
        r := Written(n);
      } else {
        r := if n < 0 then WouldBlock else Failed;
      }
      calls := calls + [Call(s, r)];
    }

    /** Socket_noPendingWrites: the search moves the cursor of the list. */
    method NoPendingWrites(s: int) returns (none: bool)
      requires Valid()
      modifies this`writePending
      ensures Valid() && writePending == AfterFind(old(writePending), Is(s))
      ensures none <==> NotPending(writes, s)
    {
      var found, after := Find(writePending, s);
      PendingIsSockets(writes, s);
      assert s in writePending.items <==> s in Elements(writePending.items);
      writePending := after;
      none := !found;
    }

    /** A packet given to writev in one piece is accounted for by what it took of it. */
    lemma AfterFirstWrite(before: Streams, s: int, iovecs: seq<seq<Byte>>, n: nat)
      requires Accounted(writes, before, accepted, broken, -1) && s in before && NotPending(writes, s)
      requires n <= |Concat(iovecs)|
      requires wire == before[s := before[s] + Concat(iovecs)[..n]]
      ensures Accounted(writes, wire, accepted[s := accepted[s] + [Concat(iovecs)]], broken, s)
      ensures s !in broken ==> wire[s] == Concat(accepted[s]) + Concat(iovecs)[..n]
    {
      StreamsKeepOthers(writes, before, accepted, broken, s, wire[s], accepted[s] + [Concat(iovecs)]);
    }

    /** Socket_putdatas. A packet is refused while another is pending on the socket;
        otherwise it is accepted, and either wholly written or kept as the pending one. */
    method Putdatas(s: int, buf0: seq<Byte>, buffers: seq<seq<Byte>>) returns (rc: PutResult)
      requires Valid() && s in wire && |buffers| <= 4
      modifies this
      ensures Valid() && broken == old(broken) && wire.Keys == old(wire.Keys) && settings == old(settings)
      ensures rc.SocketError? ==> wire == old(wire) && accepted == old(accepted) && writes == old(writes)
      ensures !old(NotPending(writes, s)) ==> rc.SocketError? && calls == old(calls)
      ensures old(NotPending(writes, s)) ==> PutAnswered(rc, s, |buf0 + Concat(buffers)|, old(calls), calls)
      ensures !rc.SocketError? ==>
        && accepted == old(accepted)[s := old(accepted[s]) + [buf0 + Concat(buffers)]]
        && (rc.Complete? ==> writes == old(writes))
        && (rc.Interrupted? ==> OneMorePending(old(writes), writes, s))
    {
      hide Concat, Accounted, PendingAgree, OpenAgree;
      OpenIsListed(clientsds, rsetSaved, maxfdp1, s);
      var none := NoPendingWrites(s);
      if !none {
        return SocketError;
      }
      var total := TotalLength(buffers);
      total := total + |buf0|;
      var iovecs := [buf0] + buffers;
      ghost var packet := buf0 + Concat(buffers);
      ConcatCons(buf0, buffers);
      rc := WriteOrKeep(s, iovecs, total);
    }

    /** The writev of Socket_putdatas and what follows it. */
    method WriteOrKeep(s: int, iovecs: seq<seq<Byte>>, total: nat) returns (rc: PutResult)
      requires PendingAgree(writePending, writes, pendingWset)
      requires Accounted(writes, wire, accepted, broken, -1)
      requires s in wire && s < FD_SETSIZE && NotPending(writes, s) && total == |Concat(iovecs)|
      modifies this`wire, this`accepted, this`writes, this`writePending, this`pendingWset, this`calls
      ensures PutAnswered(rc, s, total, old(calls), calls)
      ensures PendingAgree(writePending, writes, pendingWset)
      ensures Accounted(writes, wire, accepted, broken, -1) && wire.Keys == old(wire.Keys)
      ensures rc.SocketError? ==> wire == old(wire) && accepted == old(accepted) && writes == old(writes)
      ensures !rc.SocketError? ==> accepted == old(accepted)[s := old(accepted[s]) + [Concat(iovecs)]]
      ensures rc.Complete? ==> writes == old(writes)
      ensures rc.Interrupted? ==> OneMorePending(old(writes), writes, s)
    {
      ghost var packet := Concat(iovecs);
      var written := Writev(s, iovecs);
      if written.Failed? {
        return SocketError;
      }
      var bytes := if written.Written? then written.n else 0;
      if !written.Written? {
        assert old(wire[s]) + packet[..0] == old(wire[s]);
        assert wire == old(wire)[s := old(wire[s])];
      }
      AfterFirstWrite(old(wire), s, iovecs, bytes);
      accepted := accepted[s := accepted[s] + [packet]];
      if bytes == total {
        assert packet[..total] == packet;
        ConcatSnoc(old(accepted[s]), packet);
        Settle(s);
        rc := Complete;
      } else {
        assert accepted[s][..|accepted[s]| - 1] == old(accepted[s]);
        SetAside(PendingWrite(s, total, bytes, iovecs));
        rc := Interrupted;
      }
    }

    /** With the packet wholly written nothing is left to account for. */
    lemma Settle(s: int)
      requires Accounted(writes, wire, accepted, broken, s) && s in wire
      requires NotPending(writes, s)
      requires s !in broken ==> wire[s] == Concat(accepted[s])
      ensures Accounted(writes, wire, accepted, broken, -1)
    {
    }

    /** SocketBuffer_pendingWrite and the entries in the two other records. */
    method SetAside(pw: PendingWrite)
      requires pw.socket in wire && pw.socket < FD_SETSIZE && NotPending(writes, pw.socket) && pw.Sound()
      requires PendingAgree(writePending, writes, pendingWset)
      requires Accounted(writes, wire, accepted, broken, pw.socket)
      requires pw.socket !in broken ==> PartlyWritten(wire[pw.socket], accepted[pw.socket], pw)
      modifies this`writes, this`writePending, this`pendingWset
      ensures PendingAgree(writePending, writes, pendingWset)
      ensures Accounted(writes, wire, accepted, broken, -1)
      ensures writes == old(writes) + [pw]
    {
      var s := pw.socket;
      PendingIsSockets(writes, s);
      AppendKeepsOthers(writes, pw, wire, accepted, broken);
      PendingAfterAppend(writes, pw);
      AppendSocket(writePending.items, s);
      writes := writes + [pw];
      writePending := writePending.(items := writePending.items + [s]);
      pendingWset := FdSet(pendingWset, s);
    }

    /** Continuing a pending packet at position k, whatever writev takes, brings the wire to
        exactly the new count. */
    lemma AfterNextWrite(before: Streams, k: nat, rest: seq<Byte>, n: nat)
      requires k < |writes| && writes[k].socket in before && writes[k].Sound()
      requires Accounted(writes, before, accepted, broken, -1)
      requires rest == Concat(writes[k].iovecs)[writes[k].bytes..] && n <= |rest|
      requires wire == before[writes[k].socket := before[writes[k].socket] + rest[..n]]
      ensures Accounted(writes, wire, accepted, broken, writes[k].socket)
      ensures writes[k].socket !in broken ==>
        PartlyWritten(wire[writes[k].socket], accepted[writes[k].socket], writes[k].(bytes := writes[k].bytes + n))
    {
      var pw := writes[k];
      var s := pw.socket;
      var packet := Concat(pw.iovecs);
      StreamsKeepOthers(writes, before, accepted, broken, s, wire[s], accepted[s]);
      assert accepted[s := accepted[s]] == accepted;
      assert packet[..pw.bytes] + rest[..n] == packet[..pw.bytes + n];
    }

    /** Socket_continueWrite: 1 when the packet is complete, 0 when not, -1 on an error, which
        gives the packet up. */
    method ContinueWrite(s: int) returns (rc: int)
      requires Accounted(writes, wire, accepted, broken, -1) && !NotPending(writes, s)
      modifies this`wire, this`writes, this`broken, this`calls
      ensures OneMore(old(calls), calls, s)
      ensures rc == -1 <==> calls[|old(calls)|].answer.Failed?
      ensures Accounted(writes, wire, accepted, broken, -1) && wire.Keys == old(wire.Keys) && s in wire
      ensures rc in {-1, 0, 1}
      ensures rc == -1 ==> broken == old(broken) + {s} && wire == old(wire) && writes == old(writes)
      ensures rc != -1 ==> broken == old(broken)
      ensures Pending(writes) == Pending(old(writes))
      ensures rc != -1 ==> forall k :: 0 <= k < |writes| && writes[k].socket == s ==>
        (rc == 1 <==> writes[k].bytes == writes[k].total)
    {
      var k := WriteOf(s);
      var pw := writes[k];
      var iovecs1 := Remaining(pw.iovecs, pw.bytes);
      var written := Writev(s, iovecs1);
      if written.Failed? {
        broken := broken + {s};
        return -1;
      }
      var bytes := if written.Written? then written.n else 0;
      ghost var rest := Concat(iovecs1);
      if !written.Written? {
        assert old(wire[s]) + rest[..0] == old(wire[s]);
        assert wire == old(wire)[s := old(wire[s])];
      }
      AfterNextWrite(old(wire), k, rest, bytes);
      pw := pw.(bytes := pw.bytes + bytes);
      UpdateAccounts(writes, k, pw, wire, accepted, broken);
      PendingAfterUpdate(writes, k, pw);
      writes := writes[k := pw];
      rc := if pw.bytes == pw.total then 1 else 0;
    }

    /** SocketBuffer_writeComplete with the two other records: s has nothing pending. */
    method Drop(s: int) returns (removed: bool)
      requires PendingAgree(writePending, writes, pendingWset)
      requires Accounted(writes, wire, accepted, broken, -1)
      requires forall k :: 0 <= k < |writes| && writes[k].socket == s && s !in broken ==>
        writes[k].bytes == writes[k].total
      modifies this`writes, this`writePending, this`pendingWset
      ensures PendingAgree(writePending, writes, pendingWset)
      ensures Accounted(writes, wire, accepted, broken, -1)
      ensures NotPending(writes, s) && removed == !NotPending(old(writes), s)
      ensures writePending == AfterUnlink(old(writePending), Is(s))
      ensures |writePending.items| == |old(writePending).items| - (if removed then 1 else 0)
      ensures Pending(writes) == Pending(old(writes)) - {s}
    {
      var k := WriteOf(s);
      PendingIsSockets(writes, s);
      assert s in writePending.items <==> s in Elements(writePending.items);
      if k >= 0 {
        if s !in broken {
          var pw := writes[k];
          var ps := accepted[s];
          assert ps == ps[..|ps| - 1] + [ps[|ps| - 1]];
          ConcatSnoc(ps[..|ps| - 1], ps[|ps| - 1]);
          assert Concat(pw.iovecs)[..pw.total] == Concat(pw.iovecs);
        }
        RemoveKeepsOthers(writes, k, wire, accepted, broken, s);
        PendingAfterRemove(writes, k);
        writes := RemoveAt(writes, k);
        Settle(s);
      }
      PendingIsSockets(writes, s);
      pendingWset := pendingWset - {s};
      var after;
      removed, after := Unlink(writePending, s);
      writePending := after;
    }

    /** The body of the loop for a writable socket: one more attempt, and the packet leaves
        the lists when it is complete or given up. */
    method ContinueOrDrop(s: int) returns (rc: int)
      requires Valid() && s in writePending.items
      modifies this
      ensures Valid() && wire.Keys == old(wire.Keys) && accepted == old(accepted) && settings == old(settings)
      ensures rc in {-1, 0, 1} && Pending(writes) == Pending(old(writes)) - (if rc == 0 then {} else {s})
      ensures OneMore(old(calls), calls, s)
      ensures rc == -1 <==> calls[|old(calls)|].answer.Failed?
      ensures broken == old(broken) + (if rc == -1 then {s} else {})
      ensures rc == 0 ==> writePending == old(writePending)
      ensures rc != 0 ==> writePending == AfterUnlink(old(writePending), Is(s))
      ensures rc != 0 ==> |writePending.items| < |old(writePending).items|
      ensures clientsds == old(clientsds)
    {
      hide Concat, OpenAgree, Accounted, PartlyWritten, ConnectAgree, PendingAgree;
      PendingIsListed(writePending, writes, pendingWset, s);
      rc := ContinueWrite(s);
      if rc != 0 {
        PendingIsListed(writePending, writes, pendingWset, s);
        var removed := Drop(s);
        assert removed;
      }
    }

    /** Socket_continueWrites for the sockets select has found writable. The cursor of the
        walk is the list's own after a removal, and may go backwards; the walk ends because
        every such step leaves fewer pending writes. Only writable sockets are tried and only
        tried ones leave; when none leaves, every writable socket was tried. */
    method ContinueWrites(pwset: set<int>) returns (rc1: int, sock: int)
      requires Valid()
      modifies this
      ensures Valid() && wire.Keys == old(wire.Keys) && accepted == old(accepted) && clientsds == old(clientsds)
      ensures settings == old(settings)
      ensures old(calls) <= calls && TriedSince(calls, |old(calls)|) <= pwset
      ensures Pending(writes) <= Pending(old(writes)) <= Pending(writes) + TriedSince(calls, |old(calls)|)
      ensures rc1 == if FailedSince(calls, |old(calls)|) then -1 else 0
      ensures rc1 == 0 ==> broken == old(broken)
      ensures rc1 != 0 ==> old(broken) <= broken && sock in broken && sock in TriedSince(calls, |old(calls)|)
      ensures Pending(writes) == Pending(old(writes)) ==> Pending(writes) * pwset <= TriedSince(calls, |old(calls)|)
    {
      hide Accounted, PendingAgree, OpenAgree, TriedSince, FailedSince, Pending, OneMore;
      rc1, sock := 0, 0;
      ghost var n := |calls|;
      NoCalls(calls);
      var curpending := if writePending.items != [] then 0 else -1;
      while curpending >= 0
        invariant Valid() && wire.Keys == old(wire.Keys) && accepted == old(accepted) && clientsds == old(clientsds)
        invariant settings == old(settings)
        invariant -1 <= curpending < |writePending.items|
        invariant old(calls) <= calls && TriedSince(calls, n) <= pwset
        invariant Pending(writes) <= Pending(old(writes)) <= Pending(writes) + TriedSince(calls, n)
        invariant rc1 == if FailedSince(calls, n) then -1 else 0
        invariant old(broken) <= broken && (rc1 == 0 ==> broken == old(broken))
        invariant rc1 != 0 ==> sock in broken && sock in TriedSince(calls, n)
        invariant |writePending.items| <= |old(writePending).items|
        invariant |writePending.items| == |old(writePending).items| ==>
          && writePending.items == old(writePending).items
          && TriedUpTo(writePending.items, pwset, if curpending >= 0 then curpending else |writePending.items|,
               TriedSince(calls, n))
        decreases |writePending.items|, if curpending >= 0 then |writePending.items| - curpending else 0
      {
        var socket := writePending.items[curpending];
        var rc := 0;
        if socket in pwset {
          ghost var before := calls;
          rc := ContinueOrDrop(socket);
          OneMoreCall(before, calls, socket, n);
          Extends(old(calls), before, calls, socket);
        }
        if rc != 0 {
          curpending := writePending.current;
        } else {
          curpending := if curpending + 1 < |writePending.items| then curpending + 1 else -1;
        }
        if rc == -1 {
          sock, rc1 := socket, -1;
        }
      }
      if Pending(writes) == Pending(old(writes)) {
        assert PendingAgree(old(writePending), old(writes), old(pendingWset));
        AllTried(writePending, old(writePending), writes, old(writes), pwset, TriedSince(calls, n));
      }
    }

    /** No pending write left: the list is as long as before, and was walked to its end. */
    lemma AllTried(after: ListView<int>, before: ListView<int>, writes: seq<PendingWrite>, was: seq<PendingWrite>,
                   writable: set<int>, tried: set<int>)
      requires PendingAgree(after, writes, pendingWset) && (exists w :: PendingAgree(before, was, w))
      requires Pending(writes) == Pending(was)
      requires |after.items| == |before.items| ==> TriedUpTo(after.items, writable, |after.items|, tried)
      ensures Pending(writes) * writable <= tried
    {
      DistinctSize(after.items);
      DistinctSize(before.items);
      forall s | s in Pending(writes) * writable ensures s in tried {
        assert s in Elements(after.items);
      }
    }

    lemma NoCalls(calls: seq<Call>)
      ensures TriedSince(calls, |calls|) == {} && !FailedSince(calls, |calls|)
    {
    }

    lemma Extends(was: seq<Call>, before: seq<Call>, calls: seq<Call>, s: int)
      requires was <= before && OneMore(before, calls, s)
      ensures was <= calls
    {
    }

    /** Socket_close: s leaves every record; SOCKET_ERROR when it was never there. */
    method Close(s: int) returns (ok: bool)
      requires Valid()
      modifies this
      ensures Valid() && ok == (s in old(wire))
      ensures wire == old(wire) - {s} && accepted == old(accepted) - {s} && broken == old(broken) - {s}
      ensures Pending(writes) == Pending(old(writes)) - {s} && calls == old(calls) && settings == old(settings)
    {
      hide Accounted, PendingAgree, OpenAgree, ConnectAgree;
      OpenIsListed(clientsds, rsetSaved, maxfdp1, s);
      var fdSet := rsetSaved - {s};
      MoveIterator(s);
      ForgetConnect(s);
      ForgetWrites(s);
      rsetSaved := fdSet;
      ok := CloseClient(s);
    }

    /** The iterator over the client sockets steps off s. */
    method MoveIterator(s: int)
      requires OpenAgree(clientsds, rsetSaved, maxfdp1) && -1 <= curClientsds < |clientsds.items|
      modifies this`curClientsds
      ensures -1 <= curClientsds < |clientsds.items|
      ensures curClientsds >= 0 ==> clientsds.items[curClientsds] != s
      ensures curClientsds == var at := old(curClientsds);
        if at >= 0 && clientsds.items[at] == s then (if at + 1 < |clientsds.items| then at + 1 else -1) else at
    {
      if curClientsds >= 0 && clientsds.items[curClientsds] == s {
        curClientsds := if curClientsds + 1 < |clientsds.items| then curClientsds + 1 else -1;
      }
    }

    method ForgetConnect(s: int)
      requires ConnectAgree(connectPending, wire.Keys)
      modifies this`connectPending
      ensures ConnectAgree(connectPending, wire.Keys - {s})
    {
      hide AfterUnlink;
      var removed, left := Unlink(connectPending, s);
      connectPending := left;
    }

    /** The part of Socket_close and SocketBuffer_cleanup about pending output. */
    method ForgetWrites(s: int)
      requires PendingAgree(writePending, writes, pendingWset)
      requires Accounted(writes, wire, accepted, broken, -1)
      modifies this`writes, this`writePending, this`pendingWset, this`wire, this`accepted, this`broken
      ensures PendingAgree(writePending, writes, pendingWset)
      ensures Accounted(writes, wire, accepted, broken, -1) && NotPending(writes, s)
      ensures wire == old(wire) - {s} && accepted == old(accepted) - {s} && broken == old(broken) - {s}
      ensures Pending(writes) == Pending(old(writes)) - {s}
    {
      broken := broken + {s};
      var dropped := Drop(s);
      CloseKeepsOthers(writes, wire, accepted, broken, s);
      wire, accepted, broken := wire - {s}, accepted - {s}, broken - {s};
    }

    /** The last part of Socket_close: the list of client sockets, the iterator over it and
        maxfdp1. */
    method CloseClient(s: int) returns (ok: bool)
      requires OpenAgree(clientsds, Elements(clientsds.items), maxfdp1)
      requires -1 <= curClientsds < |clientsds.items|
      requires curClientsds >= 0 ==> clientsds.items[curClientsds] != s
      modifies this`clientsds, this`curClientsds, this`maxfdp1
      ensures OpenAgree(clientsds, Elements(old(clientsds).items) - {s}, maxfdp1)
      ensures -1 <= curClientsds < |clientsds.items|
      ensures old(curClientsds) == -1 ==> curClientsds == -1
      ensures old(curClientsds) >= 0 ==>
        curClientsds >= 0 && clientsds.items[curClientsds] == old(clientsds.items[curClientsds])
      ensures ok == (s in old(clientsds).items)
    {
      hide AfterUnlink, AfterRemove, FindIndex;
      var k := FindIndex(clientsds, Is(s));
      ghost var was := clientsds.items;
      if curClientsds >= 0 {
        IteratorSurvives(clientsds, s, curClientsds);
      }
      var after;
      ok, after := Unlink(clientsds, s);
      if ok && k < curClientsds {
        curClientsds := curClientsds - 1;
      }
      assert forall x :: x in after.items <==> x in Elements(after.items);
      assert forall x :: x in was <==> x in Elements(was);
      clientsds := after;
      if ok && s + 1 >= maxfdp1 {
        maxfdp1 := LargestSocket(clientsds.items);
        maxfdp1 := maxfdp1 + 1;
      }
    }

    /** MQTTPacket_sends and MQTTPacket_send: the fixed header is built in a buffer of its
        own in front of the packet's buffers. */
    method SendBuffers(s: int, first: Byte, buffers: seq<seq<Byte>>) returns (rc: PutResult)
      requires Valid() && s in wire && |buffers| <= 4
      modifies this
      ensures Valid() && broken == old(broken) && wire.Keys == old(wire.Keys) && settings == old(settings)
      ensures var packet := Frame([first] + Digits(|Concat(buffers)|), Concat(buffers)).Bytes();
        && (rc.SocketError? ==> wire == old(wire) && accepted == old(accepted))
        && (!rc.SocketError? ==> accepted == old(accepted)[s := old(accepted[s]) + [packet]])
        && (old(NotPending(writes, s)) ==> PutAnswered(rc, s, |packet|, old(calls), calls))
      ensures !old(NotPending(writes, s)) ==> rc.SocketError? && calls == old(calls)
      ensures if rc.Interrupted? then OneMorePending(old(writes), writes, s) else writes == old(writes)
    {
      var total := TotalLength(buffers);
      var buf0len := Encode(null, 0, total);
      var buf := new Byte[1 + buf0len];
      buf[0] := first;
      var written := Encode(buf, 1, total);
      assert buf[..1] == [first];
      assert buf[..] == buf[..1 + written] == [first] + Digits(total);
      rc := Putdatas(s, buf[..], buffers);
    }

    /** A PUBLISH or a PUBACK. */
    method Sends(s: int, p: Outgoing) returns (rc: PutResult)
      requires Valid() && s in wire
      modifies this
      ensures Valid() && broken == old(broken) && wire.Keys == old(wire.Keys) && settings == old(settings)
      ensures rc.SocketError? ==> wire == old(wire) && accepted == old(accepted)
      ensures !rc.SocketError? ==> accepted == old(accepted)[s := old(accepted[s]) + [OutFrame(p).Bytes()]]
      ensures OutFrame(p).header[0] == FirstByte(p)
      ensures !old(NotPending(writes, s)) ==> rc.SocketError? && calls == old(calls)
      ensures old(NotPending(writes, s)) ==> PutAnswered(rc, s, |OutFrame(p).Bytes()|, old(calls), calls)
      ensures if rc.Interrupted? then OneMorePending(old(writes), writes, s) else writes == old(writes)
    {
      hide SocketModule.Valid;
      HeaderIsFirstByte(p);
      rc := SendBuffers(s, OutHeader(p), OutBuffers(p));
    }

    /** What Valid means for one socket: the wire is the accepted packets in order up to some
        point inside the last one, and all of them when nothing is pending. */
    lemma WireIsPackets(s: int)
      requires Valid() && s in wire && s !in broken
      ensures wire[s] <= Concat(accepted[s])
      ensures NotPending(writes, s) ==> wire[s] == Concat(accepted[s])
      ensures forall k :: 0 <= k < |writes| && writes[k].socket == s ==>
        && accepted[s] != []
        && wire[s] + Concat(writes[k].iovecs)[writes[k].bytes..] == Concat(accepted[s])
        && Concat(accepted[s][..|accepted[s]| - 1]) <= wire[s]
    {
      forall k | 0 <= k < |writes| && writes[k].socket == s
        ensures accepted[s] != []
        ensures wire[s] + Concat(writes[k].iovecs)[writes[k].bytes..] == Concat(accepted[s])
        ensures Concat(accepted[s][..|accepted[s]| - 1]) <= wire[s] <= Concat(accepted[s])
      {
        assert PartlyWritten(wire[s], accepted[s], writes[k]);
        PartOfPackets(wire[s], accepted[s], writes[k]);
      }
    }
  }

  /** The guard counts sockets and lets any number pass: 1024 is listed first of all and is not
      in the descriptor set. */
  method RegisterBeyondSet() returns (m: SocketModule)
    ensures fresh(m) && m.clientsds.items == [1024] && !m.Valid()
  {
    m := new SocketModule();
    var rc := m.AddSocket(FD_SETSIZE);
  }

  // ----- whole runs

  datatype Event = Add(s: int) | Send(s: int, p: Outgoing) | Continue(writable: set<int>) | Shut(s: int)

  function FramesOf(ps: seq<Outgoing>): (r: seq<seq<Byte>>)
    ensures |r| == |ps|
  {
    seq(|ps|, i requires 0 <= i < |ps| => OutFrame(ps[i]).Bytes())
  }

  ghost predicate Logged(log: map<int, seq<Outgoing>>, accepted: Accepted) {
    log.Keys == accepted.Keys && forall s :: s in log ==> accepted[s] == FramesOf(log[s])
  }

  lemma LoggedSend(log: map<int, seq<Outgoing>>, accepted: Accepted, s: int, p: Outgoing)
    requires Logged(log, accepted) && s in log
    ensures Logged(log[s := log[s] + [p]], accepted[s := accepted[s] + [OutFrame(p).Bytes()]])
  {
    assert FramesOf(log[s] + [p]) == FramesOf(log[s]) + [OutFrame(p).Bytes()];
  }

  lemma LoggedOpenOrClosed(log: map<int, seq<Outgoing>>, accepted: Accepted, s: int)
    requires Logged(log, accepted)
    ensures Logged(log[s := []], accepted[s := []]) && Logged(log - {s}, accepted - {s})
  {
    assert FramesOf([]) == [];
  }

  lemma LoggedKeys(m: SocketModule, log: map<int, seq<Outgoing>>)
    requires m.Valid() && Logged(log, m.accepted)
    ensures log.Keys == m.wire.Keys && |log| == |m.clientsds.items|
  {
    DistinctSize(m.clientsds.items);
    assert |log| == |log.Keys|;
  }

  /** What comes of an event; an event for a socket in the wrong state is ignored. */
  datatype Outcome = Added(rc: int) | Sent(put: PutResult) | Continued(rc1: int) | Closed(ok: bool) | Ignored

  /** The packets accepted so far on every open socket, the pending writes and the answers of the
      system. */
  datatype Snapshot = Snapshot(log: map<int, seq<Outgoing>>, writes: seq<PendingWrite>, calls: seq<Call>,
                               settings: seq<Setting>)

  /** What an event does. */
  ghost predicate Stepped(event: Event, o: Outcome, a: Snapshot, b: Snapshot) {
    match event
    case Add(s) => AddStep(s, o, a, b)
    case Send(s, p) => SendStep(s, p, o, a, b)
    case Continue(writable) => ContinueStep(writable, o, a, b)
    case Shut(s) => ShutStep(s, o, a, b)
  }

  /** A new socket is registered exactly when there is room, and the result is 0 for one already
      there, SOCKET_ERROR without room, and otherwise what the system said to nonblocking. */
  ghost predicate AddStep(s: int, o: Outcome, a: Snapshot, b: Snapshot) {
    if s < 0 then o == Ignored && b == a
    else
      var room := s !in a.log && |a.log| < FD_SETSIZE;
      && o.Added? && (!room ==> o.rc == if s in a.log then 0 else -1)
      && b.settings == (if room then a.settings + [Setting(s, o.rc)] else a.settings)
      && b.log == (if room then a.log[s := []] else a.log)
      && b.writes == a.writes && b.calls == a.calls
  }

  /** A packet joins the log exactly when its send is not refused, it is refused exactly when
      another is pending or writev fails, and it stays pending exactly when writev does not
      take all of it. */
  ghost predicate SendStep(s: int, p: Outgoing, o: Outcome, a: Snapshot, b: Snapshot) {
    if s !in a.log then o == Ignored && b == a
    else if !NotPending(a.writes, s) then o == Sent(SocketError) && b == a
    else
      && o.Sent? && b.settings == a.settings && PutAnswered(o.put, s, |OutFrame(p).Bytes()|, a.calls, b.calls)
      && b.log == (if o.put.SocketError? then a.log else a.log[s := a.log[s] + [p]])
      && (if o.put.Interrupted? then OneMorePending(a.writes, b.writes, s) else b.writes == a.writes)
  }

  /** Only writable sockets are tried and only tried ones leave; when none leaves, all writable
      ones were tried. An error is reported exactly when writev failed. */
  ghost predicate ContinueStep(writable: set<int>, o: Outcome, a: Snapshot, b: Snapshot) {
    && b.log == a.log && b.settings == a.settings && a.calls <= b.calls
    && var tried := TriedSince(b.calls, |a.calls|);
    && o == Continued(if FailedSince(b.calls, |a.calls|) then -1 else 0)
    && tried <= writable && Pending(b.writes) <= Pending(a.writes) <= Pending(b.writes) + tried
    && (Pending(b.writes) == Pending(a.writes) ==> Pending(b.writes) * writable <= tried)
  }

  /** The socket leaves the log and the pending writes. */
  ghost predicate ShutStep(s: int, o: Outcome, a: Snapshot, b: Snapshot) {
    && o == Closed(s in a.log) && b.log == a.log - {s} && b.calls == a.calls && b.settings == a.settings
    && Pending(b.writes) == Pending(a.writes) - {s}
  }

  ghost function Seen(m: SocketModule, log: map<int, seq<Outgoing>>): Snapshot
    reads m
  {
    Snapshot(log, m.writes, m.calls, m.settings)
  }

  lemma Adds(s: int, rc: int, room: bool, a: Snapshot, b: Snapshot)
    requires s >= 0 && room == (s !in a.log && |a.log| < FD_SETSIZE)
    requires !room ==> rc == if s in a.log then 0 else -1
    requires b.settings == if room then a.settings + [Setting(s, rc)] else a.settings
    requires b.log == if room then a.log[s := []] else a.log
    requires b.writes == a.writes && b.calls == a.calls
    ensures AddStep(s, Added(rc), a, b)
  {
  }

  method PerformAdd(m: SocketModule, s: int, log: map<int, seq<Outgoing>>)
    returns (o: Outcome, after: map<int, seq<Outgoing>>)
    requires m.Valid() && Logged(log, m.accepted) && s < FD_SETSIZE
    modifies m
    ensures m.Valid() && Logged(after, m.accepted)
    ensures AddStep(s, o, old(Seen(m, log)), Seen(m, after))
  {
    hide Logged, SocketModule.Valid, FramesOf;
    o, after := Ignored, log;
    if s >= 0 {
      hide AddStep;
      LoggedKeys(m, log);
      LoggedOpenOrClosed(log, m.accepted, s);
      var room := s !in log && |m.clientsds.items| < FD_SETSIZE;
      assert room <==> s !in log && |log| < FD_SETSIZE;
      var rc := m.AddSocket(s);
      if room {
        after := log[s := []];
      }
      o := Added(rc);
      Adds(s, rc, room, old(Seen(m, log)), Seen(m, after));
    }
  }

  method PerformSend(m: SocketModule, s: int, p: Outgoing, log: map<int, seq<Outgoing>>)
    returns (o: Outcome, after: map<int, seq<Outgoing>>)
    requires m.Valid() && Logged(log, m.accepted)
    modifies m
    ensures m.Valid() && Logged(after, m.accepted)
    ensures SendStep(s, p, o, old(Seen(m, log)), Seen(m, after))
  {
    hide Logged, SocketModule.Valid, PutAnswered, NotPending, OneMorePending, OutFrame, Concat;
    o, after := Ignored, log;
    if s in log {
      LoggedKeys(m, log);
      var put := m.Sends(s, p);
      if !put.SocketError? {
        LoggedSend(log, old(m.accepted), s, p);
        after := log[s := log[s] + [p]];
      }
      o := Sent(put);
    }
  }

  method PerformShut(m: SocketModule, s: int, log: map<int, seq<Outgoing>>)
    returns (o: Outcome, after: map<int, seq<Outgoing>>)
    requires m.Valid() && Logged(log, m.accepted)
    modifies m
    ensures m.Valid() && Logged(after, m.accepted)
    ensures ShutStep(s, o, old(Seen(m, log)), Seen(m, after))
  {
    hide Logged, SocketModule.Valid, Pending;
    LoggedKeys(m, log);
    LoggedOpenOrClosed(log, m.accepted, s);
    var ok := m.Close(s);
    o, after := Closed(ok), log - {s};
  }

  /** One event; the log takes in a packet unless it was refused. */
  method Perform(m: SocketModule, event: Event, log: map<int, seq<Outgoing>>)
    returns (o: Outcome, after: map<int, seq<Outgoing>>)
    requires m.Valid() && Logged(log, m.accepted) && (event.Add? ==> event.s < FD_SETSIZE)
    modifies m
    ensures m.Valid() && Logged(after, m.accepted)
    ensures Stepped(event, o, old(Seen(m, log)), Seen(m, after))
  {
    hide Logged, SocketModule.Valid, AddStep, SendStep, ShutStep, TriedSince, FailedSince, Pending;
    match event
    case Add(s) =>
      o, after := PerformAdd(m, s, log);
    case Send(s, p) =>
      o, after := PerformSend(m, s, p, log);
    case Continue(writable) =>
      var rc, sock := m.ContinueWrites(writable);
      o, after := Continued(rc), log;
    case Shut(s) =>
      o, after := PerformShut(m, s, log);
  }

  /** Exactly-once writes. Over any run of opens, sends, continued writes and closes, however
      writev cuts the packets up, the bytes on the wire of a socket are the packets whose
      send was not refused, in order, never interleaved, up to the part of the last one that
      is still pending. The trace holds the state after every event. */
  method Run(events: seq<Event>)
    returns (m: SocketModule, log: map<int, seq<Outgoing>>, outcomes: seq<Outcome>, ghost trace: seq<Snapshot>)
    requires forall i :: 0 <= i < |events| && events[i].Add? ==> events[i].s < FD_SETSIZE
    ensures fresh(m) && m.Valid() && Logged(log, m.accepted) && |outcomes| == |events| && |trace| == |events| + 1
    ensures trace[0] == Snapshot(map[], [], [], []) && trace[|events|] == Seen(m, log)
    ensures forall i :: 0 <= i < |events| ==> Stepped(events[i], outcomes[i], trace[i], trace[i + 1])
    ensures forall s :: s in log && s !in m.broken ==>
      && m.wire[s] <= Concat(FramesOf(log[s]))
      && (NotPending(m.writes, s) ==> m.wire[s] == Concat(FramesOf(log[s])))
  {
    hide Stepped, PendingAgree, OpenAgree, FramesOf;
    m := new SocketModule();
    log, outcomes := map[], [];
    trace := [Seen(m, log)];
    for n := 0 to |events|
      invariant fresh(m) && m.Valid() && Logged(log, m.accepted)
      invariant |outcomes| == n && |trace| == n + 1
      invariant trace[0] == Snapshot(map[], [], [], []) && trace[n] == Seen(m, log)
      invariant forall i :: 0 <= i < n ==> Stepped(events[i], outcomes[i], trace[i], trace[i + 1])
    {
      var o, after := Perform(m, events[n], log);
      log, outcomes := after, outcomes + [o];
      trace := trace + [Seen(m, log)];
    }
    forall s | s in log && s !in m.broken
      ensures m.wire[s] <= Concat(FramesOf(log[s]))
      ensures NotPending(m.writes, s) ==> m.wire[s] == Concat(FramesOf(log[s]))
    {
      m.WireIsPackets(s);
    }
  }
}
