/** The walks of the gears over their intrusive lists: what TimerWheel does with
    sequences, done with the pointers. */
module GearLists {
  import opened Sequences
  import opened IntrusiveList
  import opened WheelState

  /** The forward chain, and the back links behind the head, whose own may be stale. */
  ghost predicate Linked(l: SLList)
    reads l, l.items
  {
    l.Chain() && l.Back() && (l.items != [] ==> l.items[0].prev != l.items[0])
  }

  /** A list of the wheel between two ticks. */
  ghost predicate Tidy(l: SLList)
    reads l, l.items
  {
    Linked(l) && l.Clean() && l.Owned()
  }

  /** No node is in two of these lists. */
  ghost predicate Apart(lists: set<SLList>)
    reads lists
  {
    forall a, b, n {:trigger n in a.items, n in b.items} ::
      a in lists && b in lists && n in a.items && n in b.items ==> a == b
  }

  /** The list and its links are as they were. */
  twostate predicate Same(l: SLList)
    reads l, l.items
  {
    && l.items == old(l.items) && Linked(l) == old(Linked(l))
    && l.Clean() == old(l.Clean()) && l.Owned() == old(l.Owned())
    && (l.items != [] ==> l.items[0].prev == old(l.items[0].prev))
  }

  /** Nothing has been done to the nodes of l. */
  twostate lemma Untouched(l: SLList)
    requires l.items == old(l.items) && l.head == old(l.head) && l.tail == old(l.tail)
    requires forall n :: n in l.items ==> n.prev == old(n.prev) && n.next == old(n.next) && n.list == old(n.list)
    ensures Same(l)
  {
    forall i | 0 <= i < |l.items|
      ensures NextAt(l.items, i) == old(NextAt(l.items, i)) && (i > 0 ==> PrevAt(l.items, i) == old(PrevAt(l.items, i)))
    {
      assert l.items[i] in l.items;
    }
  }

  twostate lemma StillApart(lists: set<SLList>)
    requires old(Apart(lists)) && forall l, n :: l in lists && n in l.items ==> n in old(l.items)
    ensures Apart(lists)
  {
  }

  method Pop(from: SLList, ghost lists: set<SLList>) returns (node: Node)
    requires from in lists && Apart(lists) && Linked(from) && from.items != []
    modifies from, from.items
    ensures Linked(from) && node == old(from.items)[0] && from.items == old(from.items)[1..]
    ensures node.list == null && Apart(lists) && forall l :: l in lists ==> node !in l.items
    ensures old(from.Owned()) ==> from.Owned()
    ensures from.items != [] ==> from.items[0].prev == node
    ensures forall l :: l in lists && l != from ==> Same(l)
  {
    node := from.PopFront();
    ghost var was := old(from.items);
    assert node in was && was == [node] + from.items;
    assert from.items != [] ==> from.items[0] == was[1] && old(PrevAt(was, 1));
    forall l | l in lists && l != from
      ensures Same(l) && node !in l.items
    {
      assert l.items == old(l.items) && forall n :: n in l.items ==> n !in was;
      Untouched(l);
    }
    StillApart(lists);
  }

  method Push(to: SLList, node: Node, ghost lists: set<SLList>)
    requires to in lists && Apart(lists) && Linked(to) && to.Owned()
    requires node.list == null && forall l :: l in lists ==> node !in l.items
    modifies to, to.items, node
    ensures Linked(to) && to.Owned() && to.items == old(to.items) + [node] && (old(to.Clean()) ==> to.Clean())
    ensures Apart(lists)
    ensures forall l :: l in lists && l != to ==> Same(l)
  {
    ghost var was := to.items;
    to.PushBack(node);
    forall l | l in lists && l != to
      ensures Same(l)
    {
      assert l.items == old(l.items) && forall n :: n in l.items ==> n !in was && n != node;
      Untouched(l);
    }
  }

  /** popFront and pushBack: the first node of one list goes to the end of another. */
  method Move(from: SLList, to: SLList, ghost lists: set<SLList>)
    requires from in lists && to in lists && from != to && Apart(lists)
    requires Linked(from) && from.items != [] && Linked(to) && to.Owned()
    modifies from, to, from.items, to.items
    ensures Apart(lists) && Linked(from) && Linked(to) && to.Owned()
    ensures from.items == old(from.items)[1..] && to.items == old(to.items) + [old(from.items)[0]]
    ensures old(to.Clean()) ==> to.Clean()
    ensures forall l :: l in lists && l != from && l != to ==> Same(l)
  {
    hide Apart, Linked;
    var node := Pop(from, lists);
    Push(to, node, lists);
  }

  lemma HeadOf(l: SLList)
    requires Linked(l)
    ensures l.head == if l.items == [] then null else l.items[0]
  {
  }

  /** The state of update's first loop after i nodes of the slot. */
  ghost predicate Sorted(slot: SLList, temp: SLList, run: SLList, paused: set<Node>, was: seq<Node>, ready: seq<Node>,
                         i: nat)
    requires i <= |was|
    reads slot, temp, run, slot.items, temp.items, run.items
  {
    && Apart({slot, temp, run}) && Linked(slot) && Tidy(temp) && Linked(run) && run.Owned()
    && slot.items == was[i..] && temp.items == Kept(was, paused, i) && run.items == ready + Released(was, paused, i)
  }

  lemma SortedFrom(slot: SLList, temp: SLList, run: SLList, paused: set<Node>, was: seq<Node>, ready: seq<Node>,
                   i: nat)
    requires i <= |was| && Sorted(slot, temp, run, paused, was, ready, i)
    ensures forall j :: 0 <= j < |slot.items| ==> slot.items[j] in was
    ensures forall j :: 0 <= j < |temp.items| ==> temp.items[j] in was
    ensures forall j :: 0 <= j < |run.items| ==> run.items[j] in was || run.items[j] in ready
  {
    SiftedFrom(was, paused, i);
    assert forall n :: n in run.items ==> n in was || n in ready;
    assert forall n :: n in temp.items ==> n in was;
  }

  method SortOne(slot: SLList, temp: SLList, run: SLList, paused: set<Node>, ghost was: seq<Node>,
                 ghost ready: seq<Node>, ghost i: nat)
    requires slot != temp && temp != run && slot != run && i < |was|
    requires Sorted(slot, temp, run, paused, was, ready, i)
    modifies slot, temp, run, slot.items, temp.items, run.items
    ensures Sorted(slot, temp, run, paused, was, ready, i + 1)
    ensures old(run.Clean()) ==> run.Clean()
  {
    hide Apart, Linked;
    HeadOf(slot);
    assert slot.items[0] == was[i] && slot.items[1..] == was[i + 1..];
    ghost var all := {slot, temp, run};
    if slot.head in paused {
      Move(slot, temp, all);
    } else {
      Move(slot, run, all);
      assert ready + Released(was, paused, i) + [was[i]] == ready + Released(was, paused, i + 1);
    }
  }

  lemma NothingSorted(slot: SLList, temp: SLList, run: SLList, paused: set<Node>)
    requires Apart({slot, temp, run})
    requires Linked(slot) && Tidy(temp) && temp.items == [] && Linked(run) && run.Owned()
    ensures Sorted(slot, temp, run, paused, slot.items, run.items, 0)
  {
    hide Apart, Linked;
    assert slot.items[0..] == slot.items && run.items + [] == run.items;
  }

  /** The first loop of update: the paused timers go to a list of their own, the others to
      the run list. */
  method SortOut(slot: SLList, temp: SLList, run: SLList, paused: set<Node>)
    requires slot != temp && temp != run && slot != run && Apart({slot, temp, run})
    requires Linked(slot) && Tidy(temp) && temp.items == [] && Linked(run) && run.Owned()
    modifies slot, temp, run, slot.items, run.items
    ensures Sorted(slot, temp, run, paused, old(slot.items), old(run.items), |old(slot.items)|)
    ensures old(run.Clean()) ==> run.Clean()
  {
    hide Apart, Linked, Tidy, Sorted;
    ghost var was, ready, i := slot.items, run.items, 0;
    HeadOf(slot);
    NothingSorted(slot, temp, run, paused);
    while slot.head != null
      invariant i <= |was| && Sorted(slot, temp, run, paused, was, ready, i) && |slot.items| == |was| - i
      invariant slot.head == (if slot.items == [] then null else slot.items[0])
      invariant old(run.Clean()) ==> run.Clean()
      decreases |was| - i
    {
      SortNext(slot, temp, run, paused, was, ready, i);
      i := i + 1;
    }
  }

  method SortNext(slot: SLList, temp: SLList, run: SLList, paused: set<Node>, ghost was: seq<Node>,
                  ghost ready: seq<Node>, ghost i: nat)
    requires slot != temp && temp != run && slot != run && i < |was|
    requires Sorted(slot, temp, run, paused, was, ready, i)
    modifies slot, temp, run, was, ready
    ensures Sorted(slot, temp, run, paused, was, ready, i + 1)
    ensures |slot.items| == |was| - (i + 1) && slot.head == (if slot.items == [] then null else slot.items[0])
    ensures old(run.Clean()) ==> run.Clean()
  {
    hide Apart, Linked, Tidy;
    SortedFrom(slot, temp, run, paused, was, ready, i);
    SortOne(slot, temp, run, paused, was, ready, i);
    HeadOf(slot);
  }

  /** The second loop: they come back. */
  method PutBack(slot: SLList, temp: SLList)
    requires slot != temp && Apart({slot, temp}) && Tidy(slot) && slot.items == [] && Linked(temp)
    modifies slot, temp, temp.items
    ensures Apart({slot, temp}) && Tidy(slot) && slot.items == old(temp.items) && Linked(temp) && temp.items == []
  {
    ghost var was, all, i := temp.items, {slot, temp}, 0;
    HeadOf(temp);
    while temp.head != null
      invariant i <= |was| && temp.items == was[i..] && slot.items == was[..i]
      invariant Apart(all) && Linked(slot) && slot.Clean() && slot.Owned() && Linked(temp)
      invariant temp.head == (if temp.items == [] then null else temp.items[0])
      decreases |was| - i
    {
      hide Apart, Linked;
      assert temp.items[0] == was[i] && temp.items[1..] == was[i + 1..] && was[..i + 1] == was[..i] + [was[i]];
      Move(temp, slot, all);
      HeadOf(temp);
      i := i + 1;
    }
  }

  /** update of the low gear: the paused timers of the slot stay, the others go to the
      run list, and the links of the slot are sound again, though each node popped from it
      left a stale one behind. */
  method Drain(slot: SLList, run: SLList, paused: set<Node>)
    requires slot != run && Apart({slot, run}) && Tidy(slot) && Linked(run) && run.Owned()
    modifies slot, run, slot.items, run.items
    ensures Apart({slot, run}) && Tidy(slot) && Linked(run) && run.Owned()
    ensures slot.items == Kept(old(slot.items), paused, |old(slot.items)|)
    ensures run.items == old(run.items) + Released(old(slot.items), paused, |old(slot.items)|)
    ensures old(run.Clean()) ==> run.Clean()
  {
    var temp := new SLList();
    SortOut(slot, temp, run, paused);
    SortedFrom(slot, temp, run, paused, old(slot.items), old(run.items), |old(slot.items)|);
    PutBackBeside(slot, temp, run);
  }

  method PutBackBeside(slot: SLList, temp: SLList, ghost run: SLList)
    requires slot != temp && temp != run && slot != run && Apart({slot, temp, run})
    requires Tidy(slot) && slot.items == [] && Linked(temp)
    modifies slot, temp, temp.items
    ensures Apart({slot, run}) && Tidy(slot) && slot.items == old(temp.items) && Same(run)
  {
    ghost var nodes := temp.items;
    assert forall n :: n in run.items ==> n !in nodes;
    PutBack(slot, temp);
    hide Linked, Tidy, Apart;
    Untouched(run);
  }

  ghost predicate Within(lists: set<SLList>, nodes: set<Node>)
    reads lists`items
  {
    forall l, j :: l in lists && 0 <= j < |l.items| ==> l.items[j] in nodes
  }

  /** Those of the first n nodes that are meant for l. */
  function Sent(list: seq<Node>, dest: map<Node, SLList>, l: SLList, n: nat): (r: seq<Node>)
    requires n <= |list|
  {
    if n == 0 then []
    else Sent(list, dest, l, n - 1)
         + (if list[n - 1] in dest && dest[list[n - 1]] == l then [list[n - 1]] else [])
  }

  ghost predicate Ready(l: SLList, clean: bool)
    reads l, l.items
  {
    Linked(l) && l.Owned() && (clean ==> l.Clean())
  }

  /** The state of updateToLowGear after i of the nodes it took. */
  ghost predicate Sending(temp: SLList, wheel: set<SLList>, nodes: set<Node>, clean: set<SLList>,
                          dest: map<Node, SLList>, before: map<SLList, seq<Node>>, taken: seq<Node>, i: nat)
    requires i <= |taken| && Within(wheel + {temp}, nodes) && wheel <= before.Keys
    reads temp, wheel, nodes
  {
    && temp !in wheel && Apart(wheel + {temp}) && Linked(temp) && temp.items == taken[i..]
    && (forall l :: l in wheel ==> Ready(l, l in clean) && l.items == before[l] + Sent(taken, dest, l, i))
  }

  method SendOne(temp: SLList, dest: map<Node, SLList>, ghost wheel: set<SLList>, ghost nodes: set<Node>,
                 ghost clean: set<SLList>, ghost before: map<SLList, seq<Node>>, ghost taken: seq<Node>, ghost i: nat)
    requires i < |taken| && Within(wheel + {temp}, nodes) && wheel <= before.Keys
    requires Sending(temp, wheel, nodes, clean, dest, before, taken, i)
    requires taken[i] in dest && dest[taken[i]] in wheel
    modifies temp, wheel, nodes
    ensures Within(wheel + {temp}, nodes) && Sending(temp, wheel, nodes, clean, dest, before, taken, i + 1)
  {
    hide Apart, Linked;
    HeadOf(temp);
    assert temp.items[0] == taken[i] && temp.items[1..] == taken[i + 1..];
    var to := dest[temp.head];
    Move(temp, to, wheel + {temp});
    forall l | l in wheel
      ensures Ready(l, l in clean) && l.items == before[l] + Sent(taken, dest, l, i + 1)
    {
      assert old(Ready(l, l in clean)) && (l != to ==> Same(l));
    }
  }

  /** What the lists hold once the slot's list has been taken. */
  ghost function Remaining(wheel: set<SLList>, slot: SLList): (before: map<SLList, seq<Node>>)
    reads wheel`items
  {
    map l | l in wheel :: if l == slot then [] else l.items
  }

  /** swap of updateToLowGear. */
  method TakeAll(slot: SLList) returns (temp: SLList)
    requires Linked(slot)
    modifies slot
    ensures fresh(temp) && Linked(temp) && temp.items == old(slot.items) && Tidy(slot) && slot.items == []
  {
    temp := new SLList();
    slot.Swap(temp);
  }

  method TakeList(slot: SLList, ghost wheel: set<SLList>, ghost nodes: set<Node>, ghost clean: set<SLList>,
                  ghost dest: map<Node, SLList>)
    returns (temp: SLList)
    requires slot in wheel && Apart(wheel) && Within(wheel, nodes)
    requires forall l :: l in wheel ==> Ready(l, l in clean)
    modifies slot
    ensures fresh(temp) && temp !in wheel && Within(wheel + {temp}, nodes)
    ensures Sending(temp, wheel, nodes, clean, dest, old(Remaining(wheel, slot)), old(slot.items), 0)
  {
    temp := TakeAll(slot);
    hide Linked;
    assert temp.items[0..] == temp.items;
    forall l | l in wheel && l != slot
      ensures Ready(l, l in clean) && l.items == old(l.items)
    {
      assert old(Ready(l, l in clean));
      Untouched(l);
    }
  }

  /** updateToLowGear: the list of the slot is taken and each of its timers goes to the
      end of the list chosen for it, which may be that of the slot again. All lists of the
      wheel stay sound. */
  method HandOut(slot: SLList, dest: map<Node, SLList>, ghost wheel: set<SLList>, ghost nodes: set<Node>,
                 ghost clean: set<SLList>)
    requires slot in wheel && Apart(wheel) && Within(wheel, nodes)
    requires forall l :: l in wheel ==> Ready(l, l in clean)
    requires forall n :: n in slot.items ==> n in dest && dest[n] in wheel
    modifies wheel, nodes
    ensures Apart(wheel) && Within(wheel, nodes)
    ensures forall l :: l in wheel ==>
              Ready(l, l in clean)
              && l.items == old(Remaining(wheel, slot)[l]) + Sent(old(slot.items), dest, l, |old(slot.items)|)
  {
    hide Ready;
    ghost var taken, before, i := slot.items, Remaining(wheel, slot), 0;
    var temp := TakeList(slot, wheel, nodes, clean, dest);
    HeadOf(temp);
    hide Apart, Linked;
    while temp.head != null
      invariant i <= |taken| && Within(wheel + {temp}, nodes)
      invariant Sending(temp, wheel, nodes, clean, dest, before, taken, i)
      invariant temp.head == (if temp.items == [] then null else temp.items[0])
      decreases |taken| - i
    {
      assert taken[i] in taken;
      SendOne(temp, dest, wheel, nodes, clean, before, taken, i);
      HeadOf(temp);
      i := i + 1;
    }
  }

  /** All lists of the wheel: those of the slots, which are sound, and the run list, whose
      head may have kept a back link. */
  class Wheel {
    ghost const slots: set<SLList>
    const run: SLList
    ghost var nodes: set<Node>    // all that have ever been in a list

    ghost function All(): (lists: set<SLList>) {
      slots + {run}
    }

    ghost predicate Valid()
      reads this`nodes, All(), nodes
    {
      && run !in slots && Apart(All()) && Within(All(), nodes)
      && forall l :: l in All() ==> Ready(l, l in slots)
    }

    /** The node is in one of the lists. */
    ghost predicate Listed(node: Node)
      reads All()
    {
      exists l :: l in All() && node in l.items
    }

    constructor (slots: set<SLList>)
      requires forall l :: l in slots ==> Tidy(l) && l.items == []
      ensures Valid() && this.slots == slots && fresh(run) && run.items == []
    {
      this.slots, nodes := slots, {};
      run := new SLList();
    }

    /** schedule and moveToRunList: pushBack on the list chosen. */
    method Put(node: Node, to: SLList)
      requires Valid() && to in All() && node.list == null && !Listed(node)
      modifies to, to.items, node, this`nodes
      ensures Valid() && to.items == old(to.items) + [node]
      ensures forall l :: l in All() && l != to ==> l.items == old(l.items)
    {
      Push(to, node, All());
      nodes := nodes + {node};
      forall l | l in All()
        ensures Ready(l, l in slots)
      {
        assert old(Ready(l, l in slots)) && (l != to ==> Same(l));
      }
    }

    /** popFront of the run list. */
    method PopReady() returns (node: Node)
      requires Valid() && run.items != []
      modifies run, run.items
      ensures Valid() && node == old(run.items)[0] && run.items == old(run.items)[1..]
      ensures node.list == null && !Listed(node) && (run.items != [] ==> run.items[0].prev == node)
      ensures forall l :: l in slots ==> l.items == old(l.items)
    {
      node := Pop(run, All());
      forall l | l in All()
        ensures Ready(l, l in slots)
      {
        assert old(Ready(l, l in slots)) && (l != run ==> Same(l));
      }
    }

    /** update of the low gear on one of its slots. */
    method DrainSlot(slot: SLList, paused: set<Node>)
      requires Valid() && slot in slots
      modifies slot, run, slot.items, run.items
      ensures Valid()
      ensures slot.items == Kept(old(slot.items), paused, |old(slot.items)|)
      ensures run.items == old(run.items) + Released(old(slot.items), paused, |old(slot.items)|)
      ensures forall l :: l in slots && l != slot ==> l.items == old(l.items)
    {
      hide Ready, Tidy, Linked;
      ghost var was, ready := slot.items, run.items;
      SlotIsTidy(slot);
      InNodes();
      InOneList();
      Drain(slot, run, paused);
      SiftedFrom(was, paused, |was|);
      forall l, n | l in slots && l != slot && n in l.items
        ensures n.prev == old(n.prev) && n.next == old(n.next) && n.list == old(n.list)
      {
        assert l.items == old(l.items) && n !in was && n !in ready;
      }
      SlotsStay(slot);
      DrainedApart(slot);
      TidyIsReady(slot);
    }

    lemma TidyIsReady(slot: SLList)
      requires run !in slots && Apart(All()) && Within(All(), nodes) && Tidy(slot) && Linked(run) && run.Owned()
      requires forall l :: l in slots && l != slot ==> Ready(l, l in slots)
      ensures Valid()
    {
    }

    lemma InOneList()
      requires Valid()
      ensures run !in slots
      ensures forall l, m, n {:trigger n in l.items, n in m.items} ::
                l in All() && m in All() && l != m && n in l.items ==> n !in m.items
    {
    }

    lemma SlotIsTidy(slot: SLList)
      requires Valid() && slot in slots
      ensures slot != run && Apart({slot, run}) && Tidy(slot) && Linked(run) && run.Owned()
    {
      assert Ready(slot, slot in slots) && Ready(run, run in slots);
    }

    lemma InNodes()
      requires Valid()
      ensures forall l, n :: l in All() && n in l.items ==> n in nodes
    {
      forall l, n | l in All() && n in l.items
        ensures n in nodes
      {
        var j :| 0 <= j < |l.items| && l.items[j] == n;
      }
    }

    /** The lists other than this slot and the run list. */
    twostate lemma SlotsStay(slot: SLList)
      requires old(Valid()) && slot in slots
      requires forall l :: l in slots && l != slot ==>
                 l.items == old(l.items) && l.head == old(l.head) && l.tail == old(l.tail)
      requires forall l, n :: l in slots && l != slot && n in l.items ==>
                 n.prev == old(n.prev) && n.next == old(n.next) && n.list == old(n.list)
      ensures forall l :: l in slots && l != slot ==> Ready(l, l in slots)
    {
      forall l | l in slots && l != slot
        ensures Ready(l, true)
      {
        assert old(Ready(l, l in slots));
        Untouched(l);
      }
    }

    twostate lemma DrainedApart(slot: SLList)
      requires old(Apart(All())) && Within(slots - {slot}, nodes) && slot in slots && Apart({slot, run})
      requires forall l :: l in slots && l != slot ==> l.items == old(l.items)
      requires forall n :: n in slot.items || n in run.items ==> n in nodes
      requires forall n :: n in slot.items || n in run.items ==> n in old(slot.items) || n in old(run.items)
      ensures Apart(All()) && Within(All(), nodes)
    {
    }

    /** updateToLowGear on one of the slots of a high gear. */
    method HandDown(slot: SLList, dest: map<Node, SLList>)
      requires Valid() && slot in slots
      requires forall n :: n in slot.items ==> n in dest && dest[n] in All()
      modifies All(), nodes
      ensures Valid()
      ensures forall l :: l in All() ==>
                l.items == old(Remaining(All(), slot)[l]) + Sent(old(slot.items), dest, l, |old(slot.items)|)
    {
      HandOut(slot, dest, All(), nodes, slots);
    }

    /** The lists survive the removal of the node. */
    ghost predicate Removable(node: Node)
      reads this, node, All()
    {
      node == run.head && node.prev != null ==> |run.items| > 1 && !Listed(node.prev)
    }

    /** getList()->remove(node), of killTimer and resumeTimer. */
    method Unlink(node: Node) returns (ghost k: nat)
      requires Valid() && node.list in All() && node in node.list.items
      modifies node.list, nodes, node.prev
      ensures Valid() <==> old(Removable(node))
      ensures k < |old(node.list.items)| && old(node.list.items)[k] == node
      ensures old(node.list).items == Cut(old(node.list.items), k)
      ensures node.list == null
      ensures forall l :: l in All() && l != old(node.list) ==> l.items == old(l.items)
    {
      hide Valid, Listed;
      InNodes();
      HeadOfRun(node);
      if node == run.head && node.prev != null {
        k := UnlinkStale(node);
      } else {
        k := UnlinkClean(node.list, node);
      }
    }

    /** The head of the run list is its first node, and the head of a slot is clean. */
    lemma HeadOfRun(node: Node)
      requires Valid() && node.list in All() && node in node.list.items
      ensures run !in slots
      ensures node == run.head ==> node.list == run && run.items != [] && node == run.items[0]
      ensures node.list != run && node == node.list.head ==> node.prev == null
    {
      ReadyToRemove(node.list, node);
      if node == run.head {
        assert Ready(run, run in slots);
        assert run.items != [] && run.head == run.items[0] && run.items[0].list == run;
      }
    }

    method UnlinkClean(list: SLList, node: Node) returns (ghost k: nat)
      requires Valid() && list in All() && node.list == list && node in list.items
      requires node == list.head ==> node.prev == null
      modifies list, list.items
      ensures Valid() && node.list == null
      ensures k < |old(list.items)| && old(list.items)[k] == node && list.items == Cut(old(list.items), k)
      ensures forall l :: l in All() && l != list ==> l.items == old(l.items)
    {
      hide Ready, Linked;
      InNodes();
      InOneList();
      ReadyToRemove(list, node);
      ghost var was := list.items;
      var done;
      done, k := list.Remove(node, {});
      assert list.items != [] ==> list.items[0] == was[0] || (k == 0 && was[0] == node);
      CutApart(list);
      OthersReady(list);
      RemovedReady(list);
    }

    lemma ReadyToRemove(list: SLList, node: Node)
      requires Valid() && list in All() && node in list.items
      ensures list.Chain() && list.Back() && list.Owned() && node.prev != node && node.list == list
      ensures node != list.head ==> node.prev in list.items
      ensures list.head == list.items[0] && list.head.prev != list.head && (list in slots ==> list.head.prev == null)
    {
      assert Ready(list, list in slots);
      var k :| 0 <= k < |list.items| && list.items[k] == node;
      assert k > 0 ==> PrevAt(list.items, k);
    }

    lemma RemovedReady(list: SLList)
      requires list.Chain() && list.Back() && list.Owned() && (list in slots ==> list.Clean())
      requires list.items != [] ==> list.items[0].prev != list.items[0]
      ensures Ready(list, list in slots)
    {
    }

    lemma AllReady(list: SLList)
      requires run !in slots && Apart(All()) && Within(All(), nodes) && list in All() && Ready(list, list in slots)
      requires forall l :: l in All() && l != list ==> Ready(l, l in slots)
      ensures Valid()
    {
    }

    lemma AllChained()
      ensures Valid() ==> forall l :: l in All() ==> l.Chain()
    {
      if Valid() {
        forall l | l in All()
          ensures l.Chain()
        {
          assert Ready(l, l in slots);
        }
      }
    }

    twostate lemma OthersReady(list: SLList)
      requires old(Valid()) && list in All()
      requires forall l :: l in All() && l != list ==>
                 l.items == old(l.items) && l.head == old(l.head) && l.tail == old(l.tail)
      requires forall l, n :: l in All() && l != list && n in l.items ==>
                 n.prev == old(n.prev) && n.next == old(n.next) && n.list == old(n.list)
      ensures forall l :: l in All() && l != list ==> Ready(l, l in slots)
    {
      forall l | l in All() && l != list
        ensures Ready(l, l in slots)
      {
        assert old(Ready(l, l in slots));
        Untouched(l);
      }
    }

    twostate lemma CutApart(list: SLList)
      requires old(Apart(All())) && Within(All() - {list}, nodes) && list in All()
      requires forall l :: l in All() && l != list ==> l.items == old(l.items)
      requires forall n :: n in list.items ==> n in nodes && n in old(list.items)
      ensures Apart(All()) && Within(All(), nodes)
    {
    }

    method TakeStale(node: Node, ghost p: Node)
      requires Valid() && run.items != [] && node == run.items[0] && node.list == run && node.prev == p
      modifies run, run.items, p
      ensures run.items == old(run.items)[1..] && node.list == null
      ensures run.Chain() == (run.items != [] && p !in run.items)
      ensures forall l :: l in slots ==> l.Chain() == (p !in l.items || (p == l.tail && run.items == []))
      ensures run.Back() && run.Owned() && (run.items != [] ==> run.items[0].prev == p)
    {
      hide Ready, Linked, SLList.Chain, SLList.Back, SLList.Owned;
      InOneList();
      AllChained();
      ReadyToRemove(run, node);
      var done, k := run.Remove(node, slots);
    }

    method UnlinkStale(node: Node) returns (ghost k: nat)
      requires Valid() && run.items != [] && node == run.items[0] && node.list == run && node.prev != null
      modifies run, nodes, node.prev
      ensures Valid() <==> old(Removable(node))
      ensures k == 0 && run.items == old(run.items)[1..] && node.list == null
      ensures forall l :: l in slots ==> l.items == old(l.items)
    {
      hide Valid, Ready, Linked, SLList.Chain, SLList.Back, SLList.Owned;
      k := 0;
      ghost var p := node.prev;
      InNodes();
      InOneList();
      ReadyToRemove(run, node);
      TakeStale(node, p);
      Broken(p);
      assert p in run.items <==> p in old(run.items);
      forall l, n | l in slots && n in l.items && n != p
        ensures n.prev == old(n.prev) && n.next == old(n.next) && n.list == old(n.list)
      {
        assert l.items == old(l.items) && n !in old(run.items);
      }
      if run.items != [] && !Listed(p) {
        CutApart(run);
        OthersReady(run);
        RemovedReady(run);
        AllReady(run);
      }
    }

    /** The forward link of p has been overwritten. */
    lemma Broken(p: Node)
      requires run.Chain() == (run.items != [] && p !in run.items)
      requires forall l :: l in slots ==> l.Chain() == (p !in l.items || (p == l.tail && run.items == []))
      ensures Valid() ==> run.items != [] && !Listed(p)
    {
      AllChained();
    }
  }
}
