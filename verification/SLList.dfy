/** The intrusive list of sllist.h. Its forward chain is what every operation keeps;
    the back link of the head and the owners of the nodes are not always kept, and
    the contracts say when. */
module IntrusiveList {
  import opened Sequences

  class Node {
    var prev: Node?
    var next: Node?
    var list: SLList?
    var ignoreOwner: bool

    constructor ()
      ensures prev == null && next == null && list == null && !ignoreOwner
    {
      prev, next, list, ignoreOwner := null, null, null, false;
    }
  }

  ghost predicate NextAt(l: seq<Node>, i: int)
    requires 0 <= i < |l|
    reads l`next
  {
    l[i].next == After(l, i, null)
  }

  ghost predicate PrevAt(l: seq<Node>, i: int)
    requires 0 < i < |l|
    reads l`prev
  {
    l[i].prev == l[i - 1]
  }

  ghost predicate Links(l: seq<Node>)
    reads l`next
  {
    forall i :: 0 <= i < |l| ==> NextAt(l, i)
  }

  ghost predicate BackLinks(l: seq<Node>)
    reads l`prev
  {
    forall i :: 0 < i < |l| ==> PrevAt(l, i)
  }

  class SLList {
    var head: Node?
    var tail: Node?
    ghost var items: seq<Node>

    /** From head to tail the nodes are items. */
    ghost predicate Chain()
      reads this, items`next
    {
      && head == (if items == [] then null else items[0])
      && tail == (if items == [] then null else items[|items| - 1])
      && NoDup(items) && Links(items)
    }

    /** Back links, but for that of the head. */
    ghost predicate Back()
      reads this`items, items`prev
    {
      BackLinks(items)
    }

    ghost predicate Clean()
      reads this`items, items`prev
    {
      items != [] ==> items[0].prev == null
    }

    ghost predicate Owned()
      reads this`items, items`list
    {
      forall n :: n in items ==> n.list == this
    }

    constructor ()
      ensures Chain() && items == [] && Back() && Clean() && Owned()
    {
      head, tail, items := null, null, [];
    }

    ghost function Last(): (last: set<Node>)
      reads this`tail
    {
      if tail == null then {} else {tail}
    }

    /** What pushBack does to the pointers. */
    method Append(node: Node)
      modifies this`head, this`tail, node`prev, node`next, node`list, Last()`next
      ensures tail == node && head == old(if tail == null then node else head)
      ensures node.prev == old(tail) && node.list == this
      ensures node.next == if old(tail) == node then node else null
      ensures old(tail) != null ==> old(tail).next == node
    {
      node.list := this;
      node.prev := tail;
      node.next := null;
      if tail != null {
        tail.next := node;
      } else {
        head := node;
      }
      tail := node;
    }

    method PushBack(node: Node)
      requires Chain() && node !in items && node.list == null
      modifies this, node`prev, node`next, node`list, items`next
      ensures Chain() && items == old(items) + [node] && node.list == this
      ensures items[0].prev == if old(items) == [] then null else old(items[0].prev)
      ensures old(Back()) ==> Back()
      ensures old(Clean()) ==> Clean()
      ensures old(Owned()) ==> Owned()
    {
      ghost var l := items;
      assert tail != null ==> tail in items;
      Append(node);
      items := items + [node];
      forall i | 0 <= i < |items|
        ensures NextAt(items, i)
      {
        assert i < |l| ==> old(NextAt(l, i));
      }
      forall i | 0 < i < |items| && old(Back())
        ensures PrevAt(items, i)
      {
        assert i < |l| ==> old(PrevAt(l, i));
      }
    }

    /** The node that becomes the head keeps the back link to the one that left. */
    method PopFront() returns (node: Node?)
      requires Chain()
      modifies this, items`prev, items`next, items`list
      ensures Chain() && node == old(head)
      ensures items == (if node == null then old(items) else old(items)[1..])
      ensures node != null ==> node.prev == null && node.next == null && node.list == null
      ensures forall n :: n in items ==> n.prev == old(n.prev) && n.list == old(n.list)
      ensures old(Back()) ==> Back() && (node != null ==> (Clean() <==> items == []))
      ensures old(Owned()) ==> Owned()
    {
      ghost var l := items;
      node := head;
      if head != null {
        assert NextAt(l, 0);
        head := head.next;
        if head == null {
          tail := null;
        }
        node.prev, node.next, node.list := null, null, null;
        items := items[1..];
        forall i | 0 <= i < |items|
          ensures NextAt(items, i)
        {
          assert old(NextAt(l, i + 1));
        }
        forall i | 0 < i < |l| && old(Back())
          ensures l[i].prev == l[i - 1]
        {
          assert old(PrevAt(l, i));
        }
        forall i | 0 < i < |items| && old(Back())
          ensures PrevAt(items, i)
        {
          assert l[i + 1].prev == l[i];
        }
      }
    }

    /** remove. A node of another list is refused. Any other leaves the list; but a
        head that has kept a back link drags the node it points to along: that
        node's forward link is overwritten, and becomes the tail if the list runs
        empty. So this list survives when it has another node and that node is not
        back in it; any other list survives unless that node is in it and not at its
        end while this list runs empty. Both branches write the same pointers. */
    method Remove(node: Node, ghost others: set<SLList>) returns (done: bool, ghost k: nat)
      requires Chain() && Back() && (node.list == this || node.ignoreOwner ==> node in items) && node.prev != node
      requires this !in others && forall other :: other in others ==> other.Chain()
      requires forall other, n :: other in others && n in other.items ==> n !in items
      modifies this`head, this`tail, this`items, items, node.prev
      ensures done == old(node.ignoreOwner || node.list == this)
      ensures done ==> k < |old(items)| && old(items)[k] == node && items == Cut(old(items), k)
      ensures !done ==> items == old(items)
      ensures done ==> node.prev == null && node.next == null && node.list == null
      ensures done && old(Owned()) ==> Owned()
      ensures Back() && (items != [] ==> items[0].prev == old(items[0].prev))
      ensures old(!done || node != head || node.prev == null) ==>
                Chain() && forall other :: other in others ==> other.Chain()
      ensures done && old(node == head && node.prev != null) ==> Chain() == (items != [] && old(node.prev) !in items)
      ensures done && old(node == head && node.prev != null) ==>
                forall other :: other in others ==>
                  other.Chain() == (old(node.prev) !in other.items || (old(node.prev) == other.tail && items == []))
    {
      hide Chain, Back, Owned;
      if !node.ignoreOwner && node.list != this {
        return false, 0;
      }
      done := true;
      k :| 0 <= k < |items| && items[k] == node;
      HeadIsFirst(k);
      if node == head && node.prev != null {
        k := 0;
        RemoveStaleHead(node, node.prev, others);
      } else {
        RemoveAlone(node, k, others);
      }
    }

    lemma SecondLinksBack()
      requires Chain() && Back() && |items| > 1
      ensures head == items[0] && items[1].prev == items[0]
    {
      assert PrevAt(items, 1);
    }

    lemma OwnedHave(node: Node)
      requires Owned() && node in items
      ensures node.list == this
    {
    }

    lemma OnlyOne()
      requires Chain() && |items| == 1
      ensures head == tail == items[0] && head.next == null
    {
      assert NextAt(items, 0);
    }

    lemma HeadIsFirst(k: nat)
      requires Chain() && k < |items|
      ensures k == 0 <==> items[k] == head
      ensures k == 0 ==> Cut(items, k) == items[1..]
    {
    }

    /** The other lists do not notice. */
    method RemoveAlone(node: Node, ghost k: nat, ghost others: set<SLList>)
      requires Chain() && Back() && k < |items| && node == items[k] && (k == 0 ==> node.prev == null)
      requires this !in others && forall other :: other in others ==> other.Chain()
      requires forall other, n :: other in others && n in other.items ==> n !in items
      modifies this`head, this`tail, this`items, items
      ensures Chain() && Back() && items == Cut(old(items), k)
      ensures node.prev == null && node.next == null && node.list == null
      ensures old(Owned()) ==> Owned()
      ensures items != [] ==> items[0].prev == old(items[0].prev)
      ensures forall other :: other in others ==> other.Chain()
    {
      hide Chain, Back, Owned;
      RemoveLinked(node, k);
      StillOwned();
      forall other | other in others
        ensures other.Chain()
      {
        assert other.items == old(other.items) && forall n :: n in other.items ==> n !in old(items);
        Unnoticed(other);
      }
    }

    twostate lemma StillOwned()
      requires forall n :: n in items ==> n in old(items) && n.list == old(n.list)
      ensures old(Owned()) ==> Owned()
    {
    }

    twostate lemma Unnoticed(other: SLList)
      requires other.items == old(other.items) && other.head == old(other.head) && other.tail == old(other.tail)
      requires forall n :: n in other.items ==> n.next == old(n.next)
      ensures other.Chain() == old(other.Chain())
    {
      forall i | 0 <= i < |other.items|
        ensures NextAt(other.items, i) == old(NextAt(other.items, i))
      {
        assert other.items[i] in other.items;
      }
    }

    method RemoveLinked(node: Node, ghost k: nat)
      requires Chain() && Back() && k < |items| && node == items[k] && (k == 0 ==> node.prev == null)
      modifies this`head, this`tail, this`items, items
      ensures Chain() && Back() && items == Cut(old(items), k)
      ensures node.prev == null && node.next == null && node.list == null
      ensures forall n :: n in items ==> n in old(items) && n.list == old(n.list)
      ensures items != [] ==> items[0].prev == old(items[0].prev)
    {
      ghost var l := items;
      assert NextAt(l, k);
      assert k > 0 ==> PrevAt(l, k) && NextAt(l, k - 1) && node.prev in l;
      assert k + 1 < |l| ==> PrevAt(l, k + 1) && node.next in l;
      Unlink(node);
      items := Cut(l, k);
      forall i | 0 <= i < |items|
        ensures NextAt(items, i) && (i > 0 ==> PrevAt(items, i))
      {
        assert old(NextAt(l, if i < k then i else i + 1));
        assert i > 0 ==> old(PrevAt(l, if i < k then i else i + 1));
      }
    }

    method RemoveStaleHead(node: Node, ghost p: Node, ghost others: set<SLList>)
      requires Chain() && Back() && node == head && node.prev == p && p != node
      requires this !in others && forall other :: other in others ==> other.Chain()
      requires forall other, n :: other in others && n in other.items ==> n !in items
      modifies this`head, this`tail, this`items, items, p
      ensures items == old(items)[1..] && Chain() == (items != [] && p !in items)
      ensures Back() && (items != [] ==> items[0].prev == p)
      ensures node.prev == null && node.next == null && node.list == null
      ensures forall n :: n in items ==> n.list == old(n.list)
      ensures old(Owned()) ==> Owned()
      ensures forall other :: other in others ==>
                other.Chain() == (p !in other.items || (p == other.tail && items == []))
    {
      ghost var l, q := items, node.next;
      assert NextAt(l, 0);
      assert q != null ==> q in l;
      Unlink(node);
      items := l[1..];
      forall i | 0 < i < |items|
        ensures PrevAt(items, i)
      {
        assert old(PrevAt(l, i + 1));
      }
      assert Links(items) == (p !in items) by {
        forall i | 0 <= i < |items|
          ensures NextAt(items, i) <==> items[i] != p
        {
          assert old(NextAt(l, i + 1));
        }
        OneBroken(items, p);
      }
      hide Links;
      forall other | other in others
        ensures other.Chain() == (p !in other.items || (p == other.tail && items == []))
      {
        assert other.items == old(other.items) && forall n :: n in other.items ==> n !in l;
        BehindStale(other);
      }
    }

    /** The removal of a head with a stale back link, seen from another list. */
    twostate lemma BehindStale(other: SLList)
      requires old(head) != null && old(head.prev) != null && old(other.Chain())
      requires other.items == old(other.items) && other.head == old(other.head) && other.tail == old(other.tail)
      requires old(head.prev).next == old(head.next) && (old(head.next) == null <==> items == [])
      requires old(head.next) != null ==> old(head.next) !in other.items
      requires forall n :: n in other.items && n != old(head.prev) ==> n.next == old(n.next)
      ensures var p := old(head.prev);
              other.Chain() == (p !in other.items || (p == other.tail && items == []))
    {
      var o, p, q := other.items, old(head.prev), old(head.next);
      forall i | 0 <= i < |o|
        ensures NextAt(o, i) <==> o[i] != p || (q == null && i == |o| - 1)
      {
        assert old(NextAt(o, i)) && (i + 1 < |o| ==> o[i + 1] in o);
      }
      if q == null && p == other.tail {
        assert forall i :: 0 <= i < |o| - 1 ==> o[i] != p;
      } else {
        OneBroken(o, p);
      }
    }

    /** A list whose links hold but at p. */
    lemma OneBroken(l: seq<Node>, p: Node)
      requires forall i :: 0 <= i < |l| ==> (NextAt(l, i) <==> l[i] != p)
      ensures Links(l) == (p !in l)
    {
      if p in l {
        var i :| 0 <= i < |l| && l[i] == p;
        assert !NextAt(l, i);
      }
    }

    /** What remove does to the pointers. */
    method Unlink(node: Node)
      modifies this`head, this`tail, node, node.prev, node.next
      ensures node.prev == null && node.next == null && node.list == null && node.ignoreOwner == old(node.ignoreOwner)
      ensures head == old(if node == head then node.next else head)
      ensures tail == old(if node == tail then node.prev else tail)
      ensures var p, q := old(node.prev), old(node.next);
              && (p != null && p != node ==> p.next == q && p.list == old(p.list))
              && (q != null && q != node ==> q.prev == p && q.list == old(q.list))
              && (p != null && p != node && p != q ==> p.prev == old(p.prev))
              && (q != null && q != node && q != p ==> q.next == old(q.next))
    {
      if node.next != null {
        node.next.prev := node.prev;
      }
      if node.prev != null {
        node.prev.next := node.next;
      }
      if node == head {
        head := node.next;
      }
      if node == tail {
        tail := node.prev;
      }
      node.prev, node.next, node.list := null, null, null;
    }

    /** The nodes change lists but not owners. */
    method Swap(list: SLList)
      requires Chain() && list.Chain()
      modifies this, list
      ensures Chain() && list.Chain() && items == old(list.items) && list.items == old(items)
      ensures old(list.Owned()) && list != this ==> (Owned() <==> items == [])
      ensures Back() == old(list.Back()) && list.Back() == old(Back())
    {
      hide Links, BackLinks, NoDup;
      head, list.head := list.head, head;
      tail, list.tail := list.tail, tail;
      items, list.items := list.items, items;
      assert items != [] ==> items[0] in items;
    }

    /** The other list is put at the end and not emptied. Its first node has no back
        link to what now comes before it, and its nodes keep their owner. */
    method Merge(list: SLList)
      requires Chain() && list.Chain() && forall n :: n in items ==> n !in list.items
      modifies this, items`next
      ensures Chain() && items == old(items) + list.items
      ensures list != this ==> list.Chain() && list.items == old(list.items)
      ensures old(Back()) && list.Back() && list.Clean() ==> (Back() <==> old(items) == [] || list.items == [])
      ensures list.Owned() && old(Owned()) && list != this ==> (Owned() <==> list.items == [])
    {
      ghost var a, b := items, list.items;
      if list.head == null {
        assert a + b == a;
        return;
      }
      if head == null {
        head, tail := list.head, list.tail;
      } else {
        tail.next := list.head;
        tail := list.tail;
      }
      items := a + b;
      assert b[0] in b;
      forall i | 0 <= i < |items|
        ensures NextAt(items, i) && (i >= |a| ==> NextAt(b, i - |a|))
      {
        assert i < |a| ==> a[i] in a && old(NextAt(a, i));
        assert i >= |a| ==> b[i - |a|] in b && old(NextAt(b, i - |a|)) && items[i] == b[i - |a|];
      }
      forall i | 0 <= i < |b|
        ensures NextAt(b, i)
      {
        assert NextAt(items, |a| + i) && items[|a| + i] == b[i];
      }
      JoinNoDup(a, b);
      if old(Back()) && list.Back() && list.Clean() {
        JoinedBack(a, b);
      }
    }

    lemma JoinedBack(a: seq<Node>, b: seq<Node>)
      requires b != [] && b[0].prev == null
      requires forall i :: 0 < i < |a| ==> PrevAt(a, i)
      requires forall i :: 0 < i < |b| ==> PrevAt(b, i)
      ensures (forall i :: 0 < i < |a + b| ==> PrevAt(a + b, i)) <==> a == []
    {
      if a == [] {
        assert a + b == b;
      } else {
        assert !PrevAt(a + b, |a|);
      }
    }
  }

  method AddNew(list: SLList) returns (node: Node)
    requires list.Chain() && list.Back() && list.Owned()
    modifies list, list.items`next
    ensures fresh(node) && !node.ignoreOwner && list.items == old(list.items) + [node]
    ensures list.Chain() && list.Back() && list.Owned()
  {
    node := new Node();
    list.PushBack(node);
  }

  method ListOfThree() returns (list: SLList, a: Node, b: Node, c: Node)
    ensures fresh(list) && fresh(a) && fresh(b) && fresh(c) && a != b && b != c && a != c
    ensures list.Chain() && list.Back() && list.Owned() && list.items == [a, b, c]
    ensures !a.ignoreOwner && !b.ignoreOwner
  {
    hide Links, BackLinks, NoDup;
    list := new SLList();
    a := AddNew(list);
    b := AddNew(list);
    c := AddNew(list);
  }

  method MovesFirst() returns (list: SLList, other: SLList, first: Node, node: Node, last: Node)
    ensures fresh({list, other}) && fresh({first, node, last}) && list != other
    ensures list.Chain() && list.Back() && list.Owned() && other.Chain() && list.head == node
    ensures list.items == [node, last] && other.items == [first] && node != last && first != node && first != last
    ensures node.prev == first && !node.ignoreOwner
  {
    hide Links, BackLinks, NoDup;
    list, first, node, last := ListOfThree();
    list.SecondLinksBack();
    var popped := list.PopFront();
    list.HeadIsFirst(0);
    other := new SLList();
    other.PushBack(popped);
  }

  /** The first node of one list moves to the end of another, and its follower is removed:
      the other list is no longer chained. */
  method RemovesBehindPop() returns (list: SLList, other: SLList)
    ensures list.Chain() && |list.items| == 1 && |other.items| == 1 && !other.Chain()
  {
    hide SLList.Chain, SLList.Back, SLList.Owned;
    var first, node, last;
    list, other, first, node, last := MovesFirst();
    list.OwnedHave(node);
    var done, k := list.Remove(node, {other});
  }

  /** The first of two nodes is popped, the other one is removed and the first one put back:
      the list is empty and stays so, though it is the node's list and the node its tail. */
  method LosesRescheduled() returns (list: SLList, node: Node)
    ensures list.head == null && list.tail == node && node.list == list && node.next == node
  {
    hide SLList.Chain, SLList.Back, SLList.Owned;
    var second;
    list, node, second := PopsOfTwo();
    list.Unlink(second);
    list.Append(node);
  }

  method PopsOfTwo() returns (list: SLList, first: Node, second: Node)
    ensures fresh(list) && fresh({first, second}) && first != second && first.list == null
    ensures list.items == [second] && list.head == list.tail == second
    ensures second.list == list && second.prev == first && second.next == null
  {
    hide Links, BackLinks, NoDup;
    list := new SLList();
    first := AddNew(list);
    second := AddNew(list);
    list.SecondLinksBack();
    var popped := list.PopFront();
    list.OwnedHave(second);
    list.OnlyOne();
  }
}
