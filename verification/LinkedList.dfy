/** The list of src/utils/LinkedList.c seen as a value: the contents in order and the
    position of the cached `current` element (-1 when it is null). */
module ListSpec {
  import opened Common

  datatype ListView<T> = ListView(items: seq<T>, current: int)

  predicate WellFormed<T>(v: ListView<T>) {
    -1 <= v.current < |v.items|
  }

  /** Linear search: the first position whose content matches, or -1. */
  function FirstMatch<T>(s: seq<T>, p: T -> bool): (k: int)
    ensures -1 <= k < |s|
    ensures 0 <= k ==> p(s[k]) && forall j :: 0 <= j < k ==> !p(s[j])
    ensures k == -1 ==> forall j :: 0 <= j < |s| ==> !p(s[j])
  {
    if s == [] then -1
    else if p(s[0]) then 0
    else
      var k := FirstMatch(s[1..], p);
      if k < 0 then -1 else k + 1
  }

  /** What the cached search finds: the current element if it matches, else the first match. */
  function FindIndex<T>(v: ListView<T>, p: T -> bool): (k: int)
    requires WellFormed(v)
    ensures -1 <= k < |v.items|
    ensures 0 <= k ==> p(v.items[k])
    ensures k == -1 <==> forall j :: 0 <= j < |v.items| ==> !p(v.items[j])
  {
    if 0 <= v.current && p(v.items[v.current]) then v.current else FirstMatch(v.items, p)
  }

  function AfterFind<T>(v: ListView<T>, p: T -> bool): (r: ListView<T>)
    requires WellFormed(v)
    ensures WellFormed(r) && r.items == v.items
    ensures 0 <= FindIndex(v, p) ==> r.current == FindIndex(v, p)
    ensures FindIndex(v, p) < 0 ==> r == v
  {
    var k := FindIndex(v, p);
    if k < 0 then v else v.(current := k)
  }

  /** Removing position k: the cursor stays on its element, or moves to the following
      element when its own element is the one removed. */
  function AfterRemove<T>(v: ListView<T>, k: nat): (r: ListView<T>)
    requires WellFormed(v) && k < |v.items|
    ensures WellFormed(r)
    ensures 0 <= v.current && v.current != k ==> 0 <= r.current && r.items[r.current] == v.items[v.current]
    ensures v.current == k && k + 1 < |v.items| ==> 0 <= r.current && r.items[r.current] == v.items[k + 1]
    ensures v.current == -1 || (v.current == k && k + 1 == |v.items|) ==> r.current == -1
  {
    var cursor := if v.current > k then v.current - 1
                  else if v.current == k && k + 1 == |v.items| then -1
                  else v.current;
    ListView(RemoveAt(v.items, k), cursor)
  }

  /** ListUnlink: remove what the cached search finds, if anything. */
  function AfterUnlink<T>(v: ListView<T>, p: T -> bool): (r: ListView<T>)
    requires WellFormed(v)
    ensures WellFormed(r)
    ensures |r.items| == |v.items| - (if FindIndex(v, p) < 0 then 0 else 1)
  {
    var k := FindIndex(v, p);
    if k < 0 then v else AfterRemove(v, k)
  }

  predicate UniqueMatch<T>(s: seq<T>, p: T -> bool) {
    forall i, j :: 0 <= i < |s| && 0 <= j < |s| && p(s[i]) && p(s[j]) ==> i == j
  }

  /** The cache never changes whether something is found, and when at most one element
      matches it never changes which one: search and removal are those of a plain list. */
  lemma CachedSearchIsLinearSearch<T>(v: ListView<T>, p: T -> bool)
    requires WellFormed(v)
    ensures FindIndex(v, p) < 0 <==> FirstMatch(v.items, p) < 0
    ensures UniqueMatch(v.items, p) ==> FindIndex(v, p) == FirstMatch(v.items, p)
    ensures UniqueMatch(v.items, p) && 0 <= FirstMatch(v.items, p) ==>
      AfterUnlink(v, p).items == RemoveAt(v.items, FirstMatch(v.items, p))
  {
    var k := FirstMatch(v.items, p);
    if 0 <= v.current && p(v.items[v.current]) {
      assert 0 <= k;
    }
  }

  /** The exact condition: wherever the cursor may be the search returns what a linear search
      does, if and only if at most one element matches. */
  lemma CacheIsInvisible<T>(items: seq<T>, p: T -> bool)
    ensures UniqueMatch(items, p) <==>
      forall c :: -1 <= c < |items| ==> FindIndex(ListView(items, c), p) == FirstMatch(items, p)
  {
    if UniqueMatch(items, p) {
      forall c | -1 <= c < |items| ensures FindIndex(ListView(items, c), p) == FirstMatch(items, p) {
        CachedSearchIsLinearSearch(ListView(items, c), p);
      }
    } else {
      var i, j :| 0 <= i < |items| && 0 <= j < |items| && p(items[i]) && p(items[j]) && i != j;
      assert FindIndex(ListView(items, i), p) == i && FindIndex(ListView(items, j), p) == j;
    }
  }

  /** Without uniqueness the cache is visible: two equal entries, cursor on the second. */
  lemma CacheCanReturnALaterMatch()
    ensures exists v: ListView<int>, p: int -> bool ::
      WellFormed(v) && FindIndex(v, p) != FirstMatch(v.items, p)
  {
    var v := ListView([7, 7], 1);
    var p := (x: int) => x == 7;
    assert WellFormed(v) && FindIndex(v, p) == 1 && FirstMatch(v.items, p) == 0;
  }
}

/** The doubly linked list itself, with its pointers rewritten in place. */
module LinkedList {
  import opened Common
  import opened ListSpec

  class Node<T> {
    var prev: Node?<T>
    var next: Node?<T>
    var content: T

    constructor (content: T)
      ensures this.content == content && prev == null && next == null
    {
      this.content := content;
      prev, next := null, null;
    }
  }

  /** The node at a position, null outside the list. */
  ghost function At<T>(nodes: seq<Node<T>>, i: int): (n: Node?<T>)
  {
    if 0 <= i < |nodes| then nodes[i] else null
  }

  /** first, last, prev, next and count all describe the ghost sequence of nodes. */
  ghost predicate Links<T>(nodes: seq<Node<T>>, items: seq<T>, first: Node?<T>, last: Node?<T>, count: nat)
    reads nodes
  {
    count == |nodes| && Chained(nodes, items) && Ends(nodes, first, last)
  }

  ghost predicate Chained<T>(nodes: seq<Node<T>>, items: seq<T>)
    reads nodes
  {
    && |nodes| == |items|
    && (forall i, j :: 0 <= i < j < |nodes| ==> nodes[i] != nodes[j])
    && (forall i {:trigger nodes[i].content} :: 0 <= i < |nodes| ==> nodes[i].content == items[i])
    && (forall i {:trigger nodes[i].prev} :: 1 <= i < |nodes| ==> nodes[i].prev == nodes[i - 1])
    && (forall i {:trigger nodes[i].next} :: 0 <= i < |nodes| - 1 ==> nodes[i].next == nodes[i + 1])
  }

  ghost predicate Ends<T>(nodes: seq<Node<T>>, first: Node?<T>, last: Node?<T>)
    reads nodes
  {
    && (nodes == [] ==> first == last == null)
    && (nodes != [] ==> first == nodes[0] && first.prev == null)
    && (nodes != [] ==> last == nodes[|nodes| - 1] && last.next == null)
  }

  /** The cursor after a removal points where it did, or at the element that follows. */
  lemma CursorAfterRemove<T>(nodes: seq<Node<T>>, v: ListView<T>, k: nat)
    requires |nodes| == |v.items| && WellFormed(v) && k < |nodes|
    ensures AfterRemove(v, k).items == RemoveAt(v.items, k)
    ensures At(RemoveAt(nodes, k), AfterRemove(v, k).current) ==
      if v.current == k then At(nodes, k + 1) else At(nodes, v.current)
  {
  }

  lemma CursorAfterInsert<T>(nodes: seq<Node<T>>, v: ListView<T>, k: nat, newel: Node<T>)
    requires |nodes| == |v.items| && WellFormed(v) && k < |nodes|
    ensures At(InsertAt(nodes, k, newel), if k <= v.current then v.current + 1 else v.current) == At(nodes, v.current)
  {
  }

  lemma InsertDistinct<T>(s: seq<T>, k: nat, x: T)
    requires k <= |s| && x !in s
    requires forall i, j :: 0 <= i < j < |s| ==> s[i] != s[j]
    ensures var r := InsertAt(s, k, x); forall i, j :: 0 <= i < j < |r| ==> r[i] != r[j]
  {
  }

  lemma InsertAtEnd<T>(s: seq<T>, x: T)
    ensures InsertAt(s, |s|, x) == s + [x]
  {
  }

  class List<T> {
    var first: Node?<T>
    var last: Node?<T>
    var current: Node?<T>
    var count: nat

    ghost var nodes: seq<Node<T>>
    ghost var view: ListView<T>

    /** The cursor is null or on an element, and everything else is in order. */
    ghost predicate Valid()
      reads this, nodes
    {
      Linked() && WellFormed(view) && current == At(nodes, view.current)
    }

    ghost predicate Linked()
      reads this, nodes
    {
      |nodes| == |view.items| && Links(nodes, view.items, first, last, count)
    }

    constructor ()
      ensures Valid() && view == ListView([], -1) && nodes == []
    {
      first, last, current, count := null, null, null, 0;
      nodes, view := [], ListView([], -1);
    }

    /** ListAppendNoMalloc. */
    method AppendNode(newel: Node<T>)
      requires Valid() && newel !in nodes
      modifies this, nodes, newel
      ensures Valid() && nodes == old(nodes) + [newel]
      ensures view == ListView(old(view).items + [old(newel.content)], old(view).current)
    {
      newel.next := null;
      newel.prev := last;
      if first == null {
        first := newel;
      } else {
        last.next := newel;
      }
      last := newel;
      count := count + 1;
      nodes := nodes + [newel];
      view := ListView(view.items + [newel.content], view.current);
    }

    /** ListAppend. */
    method Append(content: T) returns (newel: Node<T>)
      requires Valid()
      modifies this, nodes
      ensures Valid() && fresh(newel) && nodes == old(nodes) + [newel]
      ensures view == ListView(old(view).items + [content], old(view).current)
    {
      newel := new Node(content);
      AppendNode(newel);
    }

    /** ListInsert in front of `index`, the element at position k; at the end for null. */
    method Insert(content: T, index: Node?<T>, ghost k: nat) returns (newel: Node<T>)
      requires Valid() && k <= |nodes| && index == At(nodes, k)
      modifies this, nodes
      ensures Valid() && fresh(newel)
      ensures nodes == InsertAt(old(nodes), k, newel)
      ensures view.items == InsertAt(old(view).items, k, content)
      ensures view.current == old(view).current + (if k <= old(view).current then 1 else 0)
    {
      hide Links, InsertAt;
      if index == null {
        newel := Append(content);
        InsertAtEnd(old(nodes), newel);
        InsertAtEnd(old(view).items, content);
      } else {
        newel := new Node(content);
        CursorAfterInsert(nodes, view, k, newel);
        LinkBefore(newel, index, k);
        view := view.(current := if k <= old(view).current then old(view).current + 1 else old(view).current);
      }
    }

    /** ListInsert without its effect on the cursor's position. */
    method LinkBefore(newel: Node<T>, index: Node<T>, ghost k: nat)
      requires Linked() && k < |nodes| && nodes[k] == index && newel !in nodes
      modifies this, nodes, newel
      ensures Linked() && current == old(current)
      ensures nodes == InsertAt(old(nodes), k, newel)
      ensures view.items == InsertAt(old(view).items, k, old(newel.content))
    {
      Splice(newel, index, k);
      Spliced(newel, k);
      hide Links, InsertAt;
      count := count + 1;
      nodes := InsertAt(nodes, k, newel);
      view := view.(items := InsertAt(view.items, k, newel.content));
    }

    /** What Splice leaves is the sequence of nodes with the new one inserted. */
    lemma Spliced(newel: Node<T>, k: nat)
      requires |nodes| == |view.items| && k < |nodes| && newel !in nodes && AfterSplice(newel, k)
      ensures Links(InsertAt(nodes, k, newel), InsertAt(view.items, k, newel.content), first, last, count + 1)
    {
      hide Chained;
      SplicedChain(newel, k);
      SplicedAt(newel, k, 0);
      SplicedAt(newel, k, |nodes|);
    }

    lemma SplicedChain(newel: Node<T>, k: nat)
      requires |nodes| == |view.items| && k < |nodes| && newel !in nodes && AfterSplice(newel, k)
      ensures Chained(InsertAt(nodes, k, newel), InsertAt(view.items, k, newel.content))
    {
      assert forall i, j :: 0 <= i < j < |nodes| ==> nodes[i] != nodes[j];
      InsertDistinct(nodes, k, newel);
      hide AfterSplice;
      var after, items := InsertAt(nodes, k, newel), InsertAt(view.items, k, newel.content);
      forall i | 0 <= i < |after|
        ensures after[i].content == items[i]
        ensures i >= 1 ==> after[i].prev == after[i - 1]
        ensures i < |after| - 1 ==> after[i].next == after[i + 1]
      {
        SplicedAt(newel, k, i);
      }
    }

    lemma SplicedAt(newel: Node<T>, k: nat, i: nat)
      requires |nodes| == |view.items| && k < |nodes| && AfterSplice(newel, k) && i <= |nodes|
      ensures var after := InsertAt(nodes, k, newel);
        && after[i].content == InsertAt(view.items, k, newel.content)[i]
        && after[i].prev == At(after, i - 1) && after[i].next == At(after, i + 1)
        && (i == 0 ==> first == after[i]) && (i == |nodes| ==> last == after[i])
    {
      var after := InsertAt(nodes, k, newel);
      assert At(after, i - 1) == if i - 1 < k then At(nodes, i - 1) else if i - 1 == k then newel else nodes[i - 2];
      assert At(after, i + 1) == if i + 1 < k then nodes[i + 1] else if i + 1 == k then newel else At(nodes, i);
      if i < k {
        assert after[i] == nodes[i];
      } else if i > k {
        assert after[i] == nodes[i - 1];
      }
    }

    ghost predicate AfterSplice(newel: Node<T>, k: nat)
      requires |nodes| == |view.items| && k < |nodes|
      reads this, nodes, newel
    {
      && newel.next == nodes[k] && newel.prev == At(nodes, k - 1) && count == |nodes|
      && (forall i, j :: 0 <= i < j < |nodes| ==> nodes[i] != nodes[j])
      && (forall i {:trigger nodes[i].content} :: 0 <= i < |nodes| ==> nodes[i].content == view.items[i])
      && (forall i {:trigger nodes[i].prev} :: 0 <= i < |nodes| ==>
            nodes[i].prev == if i == k then newel else At(nodes, i - 1))
      && (forall i {:trigger nodes[i].next} :: 0 <= i < |nodes| ==>
            nodes[i].next == if i == k - 1 then newel else At(nodes, i + 1))
      && first == (if k == 0 then newel else nodes[0]) && last == nodes[|nodes| - 1]
    }

    /** The pointer updates of ListInsert. */
    method Splice(newel: Node<T>, index: Node<T>, ghost k: nat)
      requires Linked() && k < |nodes| && nodes[k] == index && newel !in nodes
      modifies this`first, nodes, newel
      ensures newel.content == old(newel.content)
      ensures AfterSplice(newel, k)
    {
      newel.next := index;
      newel.prev := index.prev;
      index.prev := newel;
      if newel.prev != null {
        newel.prev.next := newel;
      } else {
        first := newel;
      }
    }

    /** ListNextElement. */
    method Next(pos: Node?<T>, ghost k: int) returns (n: Node?<T>)
      requires Valid() && -1 <= k < |nodes| && pos == At(nodes, k)
      ensures n == At(nodes, k + 1)
    {
      n := if pos == null then first else pos.next;
    }

    /** ListPrevElement. */
    method Previous(pos: Node?<T>, ghost k: int) returns (n: Node?<T>)
      requires Valid() && 0 <= k <= |nodes| && pos == At(nodes, k)
      ensures n == At(nodes, k - 1)
    {
      n := if pos == null then last else pos.prev;
    }

    /** ListFindItem: the cached element first, then a walk from the front. */
    method FindItem(p: T -> bool) returns (rc: Node?<T>)
      requires Valid()
      modifies this`current, this`view
      ensures Valid() && nodes == old(nodes)
      ensures rc == At(nodes, FindIndex(old(view), p))
      ensures view == AfterFind(old(view), p)
    {
      if current != null && p(current.content) {
        rc := current;
      } else {
        rc := null;
        ghost var k := -1;
        var cur := Next(null, -1);
        while cur != null
          invariant Valid() && view == old(view) && nodes == old(nodes)
          invariant -1 <= k < |nodes| && cur == At(nodes, k + 1) && rc == null
          invariant forall j :: 0 <= j <= k ==> !p(view.items[j])
          decreases |nodes| - k
        {
          k := k + 1;
          if p(cur.content) {
            rc := cur;
            break;
          }
          cur := Next(cur, k);
        }
        if rc != null {
          assert FirstMatch(view.items, p) == k;
          current := rc;
          view := view.(current := k);
        }
      }
    }

    /** ListUnlink, with its saving and restoring of the cursor. */
    method Unlink(p: T -> bool) returns (removed: bool)
      requires Valid()
      modifies this, nodes
      ensures Valid()
      ensures removed <==> 0 <= FindIndex(old(view), p)
      ensures view == AfterUnlink(old(view), p)
      ensures nodes == if removed then RemoveAt(old(nodes), FindIndex(old(view), p)) else old(nodes)
    {
      var saved := current;
      var found := FindItem(p);
      if found == null {
        return false;
      }
      removed := true;
      UnlinkCurrent(saved, old(view).current, view.current);
    }

    lemma OnePlace(i: int, k: nat)
      requires Linked() && -1 <= i < |nodes| && k < |nodes|
      ensures At(nodes, i) == nodes[k] <==> i == k
    {
    }

    /** The rest of ListUnlink: `current` is on the element at position k, which goes;
        `saved` was the cursor before the search. */
    method UnlinkCurrent(saved: Node?<T>, ghost savedAt: int, ghost k: nat)
      requires Valid() && view.current == k
      requires -1 <= savedAt < |nodes| && saved == At(nodes, savedAt)
      modifies this, nodes
      ensures Valid()
      ensures view == AfterRemove(ListView(old(view).items, savedAt), k)
      ensures nodes == RemoveAt(old(nodes), k)
    {
      hide Links, AfterRemove, RemoveAt;
      var found := current;
      var next := Next(current, k);
      CursorAfterRemove(nodes, ListView(view.items, savedAt), k);
      OnePlace(savedAt, k);
      Bypass(current, k);
      if saved == found {
        current := next;
      } else {
        current := saved;
      }
      view := AfterRemove(ListView(old(view).items, savedAt), k);
    }

    /** Links the neighbours of the element at position k to each other. */
    method Bypass(el: Node<T>, ghost k: nat)
      requires Linked() && k < |nodes| && nodes[k] == el
      modifies this, nodes
      ensures Linked() && current == old(current)
      ensures nodes == RemoveAt(old(nodes), k) && view.items == RemoveAt(old(view).items, k)
    {
      Relink(el, k);
      Bypassed(k);
      hide Links, RemoveAt;
      count := count - 1;
      nodes := RemoveAt(nodes, k);
      view := ListView(RemoveAt(view.items, k), -1);
    }

    /** What Relink leaves is the sequence of nodes without the one at position k. */
    lemma Bypassed(k: nat)
      requires |nodes| == |view.items| && k < |nodes| && AfterRelink(k)
      ensures Links(RemoveAt(nodes, k), RemoveAt(view.items, k), first, last, count - 1)
    {
      var after, items := RemoveAt(nodes, k), RemoveAt(view.items, k);
      forall i | 0 <= i < |after|
        ensures after[i].content == items[i]
        ensures i >= 1 ==> after[i].prev == after[i - 1]
        ensures i < |after| - 1 ==> after[i].next == after[i + 1]
      {
        assert after[i] == nodes[if i < k then i else i + 1];
      }
    }

    ghost predicate AfterRelink(k: nat)
      requires |nodes| == |view.items| && k < |nodes|
      reads this, nodes
    {
      && count == |nodes|
      && (forall i, j :: 0 <= i < j < |nodes| ==> nodes[i] != nodes[j])
      && (forall i {:trigger nodes[i].content} :: 0 <= i < |nodes| ==> nodes[i].content == view.items[i])
      && (forall i {:trigger nodes[i].prev} :: 0 <= i < |nodes| && i != k ==>
            nodes[i].prev == At(nodes, if i == k + 1 then k - 1 else i - 1))
      && (forall i {:trigger nodes[i].next} :: 0 <= i < |nodes| && i != k ==>
            nodes[i].next == At(nodes, if i == k - 1 then k + 1 else i + 1))
      && first == At(nodes, if k == 0 then 1 else 0)
      && last == At(nodes, if k == |nodes| - 1 then k - 1 else |nodes| - 1)
    }

    /** The pointer updates of ListUnlink. */
    method Relink(el: Node<T>, ghost k: nat)
      requires Linked() && k < |nodes| && nodes[k] == el
      modifies this`first, this`last, nodes
      ensures AfterRelink(k)
    {
      if el.prev == null {
        first := el.next;
      } else {
        el.prev.next := el.next;
      }
      if el.next == null {
        last := el.prev;
      } else {
        el.next.prev := el.prev;
      }
    }

    /** ListDetachHead. */
    method DetachHead() returns (content: Option<T>)
      requires Valid()
      modifies this, nodes
      ensures Valid()
      ensures old(view).items == [] ==> content == None && view == old(view) && nodes == old(nodes)
      ensures old(view).items != [] ==>
        && content == Some(old(view).items[0])
        && view == AfterRemove(old(view), 0)
        && nodes == RemoveAt(old(nodes), 0)
    {
      hide AfterRemove, RemoveAt;
      content := None;
      if count > 0 {
        CursorAfterRemove(nodes, view, 0);
        OnePlace(view.current, 0);
        var head := first;
        if current == head {
          current := head.next;
        }
        content := Some(head.content);
        DropFirst();
        view := AfterRemove(old(view), 0);
      }
    }

    /** The pointer updates of ListDetachHead. */
    method DropFirst()
      requires Linked() && nodes != []
      modifies this, nodes
      ensures Linked() && current == old(current)
      ensures nodes == RemoveAt(old(nodes), 0) && view.items == RemoveAt(old(view).items, 0)
    {
      if last == first {
        last := null;
      }
      first := first.next;
      if first != null {
        first.prev := null;
      }
      count := count - 1;
      nodes := RemoveAt(nodes, 0);
      view := ListView(RemoveAt(view.items, 0), -1);
    }

    /** ListPopTail: here a cursor on the removed element moves back, not on. */
    method PopTail() returns (content: Option<T>)
      requires Valid()
      modifies this, nodes
      ensures Valid()
      ensures old(view).items == [] ==> content == None && view == old(view) && nodes == old(nodes)
      ensures old(view).items != [] ==>
        var n := |old(view).items| - 1;
        && content == Some(old(view).items[n])
        && view == ListView(old(view).items[..n], if old(view).current == n then n - 1 else old(view).current)
        && nodes == old(nodes)[..n]
    {
      content := None;
      if count > 0 {
        var tail := last;
        ghost var n := |nodes| - 1;
        OnePlace(view.current, n);
        assert tail == nodes[n] && tail.prev == At(nodes, n - 1);
        hide Links;
        if current == tail {
          current := tail.prev;
        }
        content := Some(tail.content);
        DropLast();
        view := ListView(view.items, if old(view).current == n then n - 1 else old(view).current);
      }
    }

    /** The pointer updates of ListPopTail. */
    method DropLast()
      requires Linked() && nodes != []
      modifies this, nodes
      ensures Linked() && current == old(current)
      ensures nodes == old(nodes)[..|old(nodes)| - 1] && view.items == old(view).items[..|old(nodes)| - 1]
    {
      if first == last {
        first := null;
      }
      last := last.prev;
      if last != null {
        last.next := null;
      }
      count := count - 1;
      ghost var n := |nodes| - 1;
      nodes := nodes[..n];
      view := ListView(view.items[..n], -1);
    }

    /** ListEmpty. */
    method Empty()
      requires Valid()
      modifies this
      ensures Valid() && view == ListView([], -1) && nodes == []
    {
      ghost var k := 0;
      while first != null
        invariant 0 <= k <= |nodes| && first == At(nodes, k)
        invariant nodes == old(nodes)
        invariant forall i {:trigger nodes[i].next} :: 0 <= i < |nodes| - 1 ==> nodes[i].next == nodes[i + 1]
        invariant nodes != [] ==> nodes[|nodes| - 1].next == null
        decreases |nodes| - k
      {
        first := first.next;
        k := k + 1;
      }
      count := 0;
      current, first, last := null, null, null;
      nodes, view := [], ListView([], -1);
    }
  }
}
