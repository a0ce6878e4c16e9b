/** The staged shutdown the master drives (ShutDown.cpp). */
module Staging {

  datatype Node = Node(nodeType: int, id: int)

  type int8 = k: int | -128 <= k < 128

  datatype Opt = Notify | Close

  datatype Entry = Entry(nodeType: int, random: bool)

  datatype Stage = Stage(opt: Opt, nodes: seq<Entry>)

  /** The configured steps, and what getRandom picks from a set at its k-th call. */
  datatype Plan = Plan(steps: seq<Stage>, pick: (set<Node>, nat) -> Node)

  ghost predicate Proper(w: Plan) {
    && w.steps != []
    && forall all: set<Node>, k: nat :: all != {} ==> w.pick(all, k) in all
  }

  datatype Event = Open(node: Node) | Gone(node: Node) | Terminate | Ack(node: Node, step: int8)

  /** _allNodes and _currOptNodes as sets of nodes. selected keeps what each step
      selected, log each event with the step it found. */
  datatype State = State(all: set<Node>, waiting: set<Node>, curr: int, on: bool, stopped: bool, draws: nat,
                         selected: seq<set<Node>>, log: seq<(int, Event)>)

  function OfType(all: set<Node>, t: int): (r: set<Node>) {
    set n | n in all && n.nodeType == t
  }

  /** One entry of a step after the others. */
  function Select(w: Plan, s: State, e: Entry): (r: State) {
    var those := OfType(s.all, e.nodeType);
    if !e.random then s.(waiting := s.waiting + those)
    else if those == {} then s.(draws := s.draws + 1)
    else s.(waiting := s.waiting + {w.pick(those, s.draws)}, draws := s.draws + 1)
  }

  function SelectAll(w: Plan, s: State, entries: seq<Entry>): (r: State)
    ensures r == s.(waiting := r.waiting, draws := r.draws)
  {
    if entries == [] then s
    else Select(w, SelectAll(w, s, entries[..|entries| - 1]), entries[|entries| - 1])
  }

  function Started(w: Plan, s: State): (r: State)
    requires -1 <= s.curr < |w.steps|
    decreases |w.steps| - s.curr, 0
  {
    if s.curr + 1 < |w.steps| then
      var t := SelectAll(w, s, w.steps[s.curr + 1].nodes);
      Checked(w, t.(curr := s.curr + 1, selected := s.selected + [t.waiting]))
    else s.(stopped := true)
  }

  function Checked(w: Plan, s: State): (r: State)
    requires -1 <= s.curr < |w.steps|
    decreases |w.steps| - s.curr, 1
  {
    if s.waiting == {} then Started(w, s) else s
  }

  /** The event lets the node go in this step. */
  predicate LetsGo(w: Plan, curr: int, e: Event, n: Node) {
    && 0 <= curr < |w.steps|
    && match w.steps[curr].opt
       case Notify => e.Ack? && e.node == n && e.step == curr
       case Close => e.Gone? && e.node == n
  }

  function Handle(w: Plan, s0: State, e: Event): (r: State)
    requires -1 <= s0.curr < |w.steps|
    requires !(e.Terminate? && s0.on)
  {
    var s := s0.(log := s0.log + [(s0.curr, e)]);
    match e
    case Open(n) => s.(all := s.all + {n})
    case Gone(n) =>
      var t := s.(all := s.all - {n});
      if s.on && LetsGo(w, s.curr, e, n) then Checked(w, t.(waiting := t.waiting - {n})) else t
    case Terminate => Started(w, s.(on := true))
    case Ack(n, _) =>
      if s.on && LetsGo(w, s.curr, e, n) then Checked(w, s.(waiting := s.waiting - {n})) else s
  }

  const Initial := State({}, {}, -1, false, false, 0, [], [])

  // ---------------------------------------------------------------- invariant

  /** The node was let go while step k was on. */
  ghost predicate Released(w: Plan, log: seq<(int, Event)>, k: int, n: Node) {
    exists i :: 0 <= i < |log| && log[i].0 == k && LetsGo(w, k, log[i].1, n)
  }

  /** Whoever a step has selected is still waited for in that step or was let go. */
  ghost predicate Accounted(w: Plan, s: State) {
    && |s.selected| == s.curr + 1
    && forall k, n :: 0 <= k <= s.curr && n in s.selected[k] ==>
         (k == s.curr && n in s.waiting) || Released(w, s.log, k, n)
  }

  ghost predicate Inv(w: Plan, s: State) {
    && -1 <= s.curr < |w.steps|
    && Accounted(w, s)
    && (!s.on ==> s.curr == -1 && s.waiting == {} && !s.stopped)
    && (s.on ==> s.curr >= 0 && (s.waiting != {} <==> !s.stopped))
    && (s.stopped ==> s.curr == |w.steps| - 1)
  }

  lemma ReleasedLater(w: Plan, log: seq<(int, Event)>, more: seq<(int, Event)>, k: int, n: Node)
    requires Released(w, log, k, n)
    ensures Released(w, log + more, k, n)
  {
    var i :| 0 <= i < |log| && log[i].0 == k && LetsGo(w, k, log[i].1, n);
    assert (log + more)[i] == log[i];
  }

  /** The recursion through steps that select nobody ends, with somebody to wait for
      or with the kernel stopped after the last step. */
  lemma {:induction false} StartKeeps(w: Plan, s: State)
    requires -1 <= s.curr < |w.steps| && s.on && s.waiting == {} && Accounted(w, s)
    requires w.steps != [] && (s.stopped ==> s.curr == |w.steps| - 1)
    ensures Inv(w, Started(w, s)) && Started(w, s).on && Started(w, s).curr >= s.curr
    decreases |w.steps| - s.curr
  {
    if s.curr + 1 < |w.steps| {
      var t := SelectAll(w, s, w.steps[s.curr + 1].nodes);
      var u := t.(curr := s.curr + 1, selected := s.selected + [t.waiting]);
      forall k, n | 0 <= k <= u.curr && n in u.selected[k]
        ensures (k == u.curr && n in u.waiting) || Released(w, u.log, k, n)
      {
        if k <= s.curr {
          assert n in s.selected[k];
        }
      }
      if u.waiting == {} {
        StartKeeps(w, u);
      }
    }
  }

  lemma HandleKeeps(w: Plan, s0: State, e: Event)
    requires Inv(w, s0) && w.steps != [] && !(e.Terminate? && s0.on)
    ensures Inv(w, Handle(w, s0, e))
  {
    var s := s0.(log := s0.log + [(s0.curr, e)]);
    forall k, n | 0 <= k <= s.curr && n in s.selected[k]
      ensures (k == s.curr && n in s0.waiting) || Released(w, s.log, k, n)
    {
      if Released(w, s0.log, k, n) {
        ReleasedLater(w, s0.log, [(s0.curr, e)], k, n);
      }
    }
    if e.Terminate? {
      StartKeeps(w, s.(on := true));
    } else if (e.Gone? || e.Ack?) && s.on && LetsGo(w, s.curr, e, e.node) {
      var t := s.(waiting := s.waiting - {e.node}, all := if e.Gone? then s.all - {e.node} else s.all);
      forall k, n | 0 <= k <= t.curr && n in t.selected[k]
        ensures (k == t.curr && n in t.waiting) || Released(w, t.log, k, n)
      {
        if k == t.curr && n == e.node {
          assert s.log[|s0.log|] == (k, e);
        }
      }
      if t.waiting == {} {
        StartKeeps(w, t);
      }
    }
  }

  // --------------------------------------------------------------------- runs

  /** One shutdown request. */
  predicate Legal(on: bool, events: seq<Event>)
    decreases |events|
  {
    events == [] || (!(on && events[0].Terminate?) && Legal(on || events[0].Terminate?, events[1..]))
  }

  lemma {:induction false} StartExtends(w: Plan, s: State)
    requires -1 <= s.curr < |w.steps|
    ensures var r := Started(w, s);
            s.selected <= r.selected && r.on == s.on && r.log == s.log && r.curr >= s.curr
    decreases |w.steps| - s.curr
  {
    if s.curr + 1 < |w.steps| {
      var t := SelectAll(w, s, w.steps[s.curr + 1].nodes);
      if t.waiting == {} {
        StartExtends(w, t.(curr := s.curr + 1, selected := s.selected + [t.waiting]));
      }
    }
  }

  /** Steps are only ever added behind those already visited. */
  lemma HandleExtends(w: Plan, s0: State, e: Event)
    requires -1 <= s0.curr < |w.steps| && !(e.Terminate? && s0.on)
    ensures var r := Handle(w, s0, e);
            && s0.selected <= r.selected && r.curr >= s0.curr
            && r.on == (s0.on || e.Terminate?) && r.log == s0.log + [(s0.curr, e)]
  {
    var s := s0.(log := s0.log + [(s0.curr, e)]);
    StartExtends(w, s.(on := true));
    if e.Gone? {
      StartExtends(w, s.(all := s.all - {e.node}, waiting := s.waiting - {e.node}));
    } else if e.Ack? {
      StartExtends(w, s.(waiting := s.waiting - {e.node}));
    }
  }

  ghost function Run(w: Plan, s: State, events: seq<Event>): (r: State)
    requires Inv(w, s) && w.steps != [] && Legal(s.on, events)
    decreases |events|
  {
    if events == [] then s
    else
      HandleKeeps(w, s, events[0]);
      HandleExtends(w, s, events[0]);
      Run(w, Handle(w, s, events[0]), events[1..])
  }

  lemma {:induction false} RunKeeps(w: Plan, s: State, events: seq<Event>)
    requires Inv(w, s) && w.steps != [] && Legal(s.on, events)
    ensures var r := Run(w, s, events); Inv(w, r) && s.selected <= r.selected && r.curr >= s.curr
    decreases |events|
  {
    if events != [] {
      HandleKeeps(w, s, events[0]);
      HandleExtends(w, s, events[0]);
      RunKeeps(w, Handle(w, s, events[0]), events[1..]);
    }
  }

  /** In every run the steps are visited one after the other; a step is on only when
      everybody an earlier step had selected was let go while that step was on, and
      the kernel stops only when that is so for the last step too. */
  lemma StagedShutdown(w: Plan, events: seq<Event>)
    requires Proper(w) && Legal(false, events)
    ensures Inv(w, Initial)
    ensures var r := Run(w, Initial, events);
            && |r.selected| == r.curr + 1
            && (forall k, n :: 0 <= k < r.curr && n in r.selected[k] ==> Released(w, r.log, k, n))
            && (r.stopped ==> r.curr == |w.steps| - 1)
            && (r.stopped ==> forall k, n :: 0 <= k <= r.curr && n in r.selected[k] ==> Released(w, r.log, k, n))
            && (r.on && !r.stopped ==> r.waiting != {})
  {
    RunKeeps(w, Initial, events);
  }

  /** The last node to be let go moves the shutdown on. */
  lemma LastOneMovesOn(w: Plan, s: State, e: Event, n: Node)
    requires Inv(w, s) && w.steps != [] && s.on && s.waiting == {n} && LetsGo(w, s.curr, e, n)
    ensures Handle(w, s, e).curr > s.curr || Handle(w, s, e).stopped
  {
    var t := s.(log := s.log + [(s.curr, e)], waiting := {}, all := if e.Gone? then s.all - {n} else s.all);
    assert s.waiting - {n} == {};
    assert Handle(w, s, e) == Started(w, t);
    if s.curr + 1 < |w.steps| {
      var u := SelectAll(w, t, w.steps[s.curr + 1].nodes);
      var v := u.(curr := s.curr + 1, selected := t.selected + [u.waiting]);
      assert Started(w, t) == Checked(w, v);
      StartExtends(w, v);
    }
  }

  /** Nothing but being let go takes a node off the list: the step stays on. */
  lemma {:induction false} WaitsFor(w: Plan, s: State, events: seq<Event>, n: Node)
    requires Inv(w, s) && w.steps != [] && s.on && n in s.waiting && Legal(true, events)
    requires forall e :: e in events ==> !LetsGo(w, s.curr, e, n)
    ensures var r := Run(w, s, events); r.curr == s.curr && n in r.waiting && !r.stopped
    decreases |events|
  {
    if events != [] {
      var e := events[0];
      HandleKeeps(w, s, e);
      HandleExtends(w, s, e);
      assert e in events;
      var t := Handle(w, s, e);
      if (e.Gone? || e.Ack?) && LetsGo(w, s.curr, e, e.node) {
        assert n in s.waiting - {e.node};
      }
      assert t.curr == s.curr && n in t.waiting;
      WaitsFor(w, t, events[1..], n);
    }
  }

  predicate Over(s: State, r: State) {
    r.curr > s.curr || r.stopped
  }

  lemma {:induction false} StoppedStays(w: Plan, s: State, events: seq<Event>)
    requires Inv(w, s) && w.steps != [] && s.on && s.stopped && Legal(true, events)
    ensures Run(w, s, events).stopped
    decreases |events|
  {
    if events != [] {
      HandleKeeps(w, s, events[0]);
      HandleExtends(w, s, events[0]);
      var e := events[0];
      if (e.Gone? || e.Ack?) && LetsGo(w, s.curr, e, e.node) {
        var t := s.(log := s.log + [(s.curr, e)], all := if e.Gone? then s.all - {e.node} else s.all);
        assert s.waiting - {e.node} == {} == s.waiting;
        assert Handle(w, s, e) == Started(w, t) && Started(w, t).stopped;
      }
      StoppedStays(w, Handle(w, s, events[0]), events[1..]);
    }
  }

  lemma OverStays(w: Plan, s: State, t: State, events: seq<Event>)
    requires Inv(w, t) && w.steps != [] && t.on && Legal(true, events) && Over(s, t)
    ensures Over(s, Run(w, t, events))
  {
    RunKeeps(w, t, events);
    if t.stopped {
      StoppedStays(w, t, events);
    }
  }

  /** Everybody the step waits for is let go. */
  ghost predicate AllLetGo(w: Plan, s: State, events: seq<Event>) {
    forall n :: n in s.waiting ==> exists e :: e in events && LetsGo(w, s.curr, e, n)
  }

  /** One event: the step is over, or it waits for the same nodes but for those the
      event lets go. */
  lemma HandleLetsGo(w: Plan, s: State, e: Event)
    requires Inv(w, s) && w.steps != [] && s.on && !s.stopped && !e.Terminate?
    ensures var t := Handle(w, s, e);
            || Over(s, t)
            || (t.curr == s.curr && forall n :: n in t.waiting <==> n in s.waiting && !LetsGo(w, s.curr, e, n))
  {
    if (e.Gone? || e.Ack?) && LetsGo(w, s.curr, e, e.node) && s.waiting - {e.node} == {} {
      assert s.waiting == {e.node};
      LastOneMovesOn(w, s, e, e.node);
    }
  }

  lemma {:induction false} StepEnds(w: Plan, s: State, events: seq<Event>)
    requires Inv(w, s) && w.steps != [] && s.on && !s.stopped && Legal(true, events)
    requires AllLetGo(w, s, events)
    ensures Over(s, Run(w, s, events))
    decreases |events|
  {
    var n :| n in s.waiting;
    var e0 :| e0 in events && LetsGo(w, s.curr, e0, n);
    var e := events[0];
    HandleKeeps(w, s, e);
    HandleExtends(w, s, e);
    HandleLetsGo(w, s, e);
    var t := Handle(w, s, e);
    if Over(s, t) {
      OverStays(w, s, t, events[1..]);
    } else {
      forall m | m in t.waiting
        ensures exists f :: f in events[1..] && LetsGo(w, t.curr, f, m)
      {
        var f :| f in events && LetsGo(w, s.curr, f, m);
        assert f in events[1..];
      }
      StepEnds(w, t, events[1..]);
    }
  }

  /** A step is over after these events exactly when they let go everybody it waits
      for. */
  lemma StepEndsIff(w: Plan, s: State, events: seq<Event>)
    requires Inv(w, s) && w.steps != [] && s.on && !s.stopped && Legal(true, events)
    ensures Over(s, Run(w, s, events)) <==> AllLetGo(w, s, events)
  {
    if AllLetGo(w, s, events) {
      StepEnds(w, s, events);
    } else {
      var n :| n in s.waiting && forall e :: e in events ==> !LetsGo(w, s.curr, e, n);
      WaitsFor(w, s, events, n);
    }
  }

  /** A NOTIFY step is over exactly when everybody it waits for has acknowledged it:
      whether they close does not matter, before the acknowledgement or after. */
  lemma NotifyEndsIff(w: Plan, s: State, events: seq<Event>)
    requires Inv(w, s) && w.steps != [] && s.on && !s.stopped && Legal(true, events)
    requires w.steps[s.curr].opt == Notify
    ensures Over(s, Run(w, s, events)) <==>
              forall n :: n in s.waiting ==> exists e :: e in events && e.Ack? && e.node == n && e.step == s.curr
  {
    StepEndsIff(w, s, events);
  }

  function Release(w: Plan, curr: int, n: Node): (e: Event)
    requires 0 <= curr < |w.steps| && (w.steps[curr].opt == Notify ==> curr < 128)
  {
    if w.steps[curr].opt == Notify then Ack(n, curr) else Gone(n)
  }

  lemma {:induction false} ReleaseAll(w: Plan, s: State, nodes: set<Node>) returns (events: seq<Event>)
    requires 0 <= s.curr < |w.steps| && (w.steps[s.curr].opt == Notify ==> s.curr < 128)
    ensures Legal(true, events)
    ensures forall n :: n in nodes ==> exists e :: e in events && LetsGo(w, s.curr, e, n)
    decreases |nodes|
  {
    if nodes == {} {
      events := [];
    } else {
      var n :| n in nodes;
      var rest := ReleaseAll(w, s, nodes - {n});
      events := [Release(w, s.curr, n)] + rest;
      forall m | m in nodes
        ensures exists e :: e in events && LetsGo(w, s.curr, e, m)
      {
        if m == n {
          assert events[0] in events;
        } else {
          assert m in nodes - {n};
          var e :| e in rest && LetsGo(w, s.curr, e, m);
          assert e in events;
        }
      }
    }
  }

  /** The step travels as an int8: a step that is on can be brought to an end exactly
      when it is a CLOSE step or one of the first 128. */
  lemma CanEndIff(w: Plan, s: State)
    requires Inv(w, s) && w.steps != [] && s.on && !s.stopped
    ensures (exists events :: Legal(true, events) && Over(s, Run(w, s, events))) <==>
              w.steps[s.curr].opt == Close || s.curr < 128
  {
    if w.steps[s.curr].opt == Close || s.curr < 128 {
      var events := ReleaseAll(w, s, s.waiting);
      StepEndsIff(w, s, events);
    } else {
      forall events | Legal(true, events)
        ensures !Over(s, Run(w, s, events))
      {
        StepEndsIff(w, s, events);
      }
    }
  }

  /** A plan that asks the nodes of type k to stop in its k-th step. */
  predicate OneTypeEach(w: Plan) {
    w.steps != [] && forall k :: 0 <= k < |w.steps| ==> w.steps[k] == Stage(Notify, [Entry(k, false)])
  }

  lemma {:induction false} SkipsOthers(w: Plan, s: State, n: Node)
    requires OneTypeEach(w) && 0 <= n.nodeType < |w.steps|
    requires -1 <= s.curr < n.nodeType && s.waiting == {} && s.all == {n}
    ensures var r := Started(w, s); r.curr == n.nodeType && r.waiting == {n} && r.stopped == s.stopped
    decreases n.nodeType - s.curr
  {
    var k := s.curr + 1;
    var t := SelectAll(w, s, w.steps[k].nodes);
    assert w.steps[k].nodes == [Entry(k, false)] && [Entry(k, false)][..0] == [];
    assert SelectAll(w, s, []) == s && t == Select(w, s, Entry(k, false));
    assert t.waiting == {} + OfType(s.all, k);
    assert OfType({n}, k) == if n.nodeType == k then {n} else {};
    assert t.waiting == if n.nodeType == k then {n} else {};
    if k < n.nodeType {
      SkipsOthers(w, t.(curr := k, selected := s.selected + [t.waiting]), n);
    }
  }

  /** The shutdown requested while n is the only node: it comes to the step of its
      type. */
  lemma AsksOnly(w: Plan, n: Node)
    requires OneTypeEach(w) && 0 <= n.nodeType < |w.steps|
    ensures Legal(false, [Open(n), Event.Terminate]) && Inv(w, Initial)
    ensures var s := Run(w, Initial, [Open(n), Event.Terminate]);
            && Inv(w, s) && s.on && !s.stopped && s.curr == n.nodeType && s.waiting == {n}
  {
    var events := [Open(n), Event.Terminate];
    var s1 := Handle(w, Initial, Open(n));
    var s2 := s1.(log := s1.log + [(s1.curr, Event.Terminate)], on := true);
    SkipsOthers(w, s2, n);
    HandleKeeps(w, Initial, Open(n));
    HandleKeeps(w, s1, Event.Terminate);
    assert events[1..] == [Event.Terminate] && [Event.Terminate][1..] == [];
    assert Run(w, s1, [Event.Terminate]) == Run(w, Started(w, s2), []);
  }

  /** A run that hangs: the only node is told to stop and closes without a word. */
  lemma ClosedBeforeAck(w: Plan, n: Node, more: seq<Event>)
    requires OneTypeEach(w) && 0 <= n.nodeType < |w.steps|
    requires Legal(true, more) && forall e :: e in more ==> !(e.Ack? && e.node == n)
    ensures Legal(false, [Open(n), Event.Terminate]) && Inv(w, Initial)
    ensures var s := Run(w, Initial, [Open(n), Event.Terminate]);
            && Inv(w, s) && s.on && !s.stopped && s.curr == n.nodeType && s.waiting == {n}
            && !Over(s, Run(w, s, [Gone(n)] + more))
  {
    AsksOnly(w, n);
    var s := Run(w, Initial, [Open(n), Event.Terminate]);
    assert ([Gone(n)] + more)[1..] == more;
    NotifyEndsIff(w, s, [Gone(n)] + more);
  }

  /** A run that cannot be ended: the only node is of the type of the 129th step. */
  lemma FarNotifyNeverEnds(w: Plan, n: Node, more: seq<Event>)
    requires OneTypeEach(w) && 128 <= n.nodeType < |w.steps| && Legal(true, more)
    ensures Legal(false, [Open(n), Event.Terminate]) && Inv(w, Initial)
    ensures var s := Run(w, Initial, [Open(n), Event.Terminate]);
            && Inv(w, s) && s.on && !s.stopped && s.waiting == {n} && !Over(s, Run(w, s, more))
  {
    AsksOnly(w, n);
    CanEndIff(w, Run(w, Initial, [Open(n), Event.Terminate]));
  }

  // ---------------------------------------------------------------- selection

  /** Everybody of a type a step names, one of a type it names at random, and nobody
      else. */
  ghost predicate Selection(all: set<Node>, entries: seq<Entry>, chosen: set<Node>) {
    && (forall e :: e in entries && !e.random ==> OfType(all, e.nodeType) <= chosen)
    && (forall e :: e in entries && e.random && OfType(all, e.nodeType) != {} ==>
          OfType(chosen, e.nodeType) != {})
    && (forall n :: n in chosen ==> n in all && exists e :: e in entries && e.nodeType == n.nodeType)
  }

  lemma {:induction false} SelectsAsTold(w: Plan, s: State, entries: seq<Entry>)
    requires Proper(w) && s.waiting == {}
    ensures Selection(s.all, entries, SelectAll(w, s, entries).waiting)
  {
    if entries != [] {
      var front, last := entries[..|entries| - 1], entries[|entries| - 1];
      SelectsAsTold(w, s, front);
      var t := SelectAll(w, s, front);
      var those := OfType(s.all, last.nodeType);
      var chosen := SelectAll(w, s, entries).waiting;
      assert forall e :: e in entries ==> e in front || e == last;
      assert t.waiting <= chosen;
      forall e | e in entries && e.random && OfType(s.all, e.nodeType) != {}
        ensures OfType(chosen, e.nodeType) != {}
      {
        if e in front {
          var n :| n in OfType(t.waiting, e.nodeType);
          assert n in OfType(chosen, e.nodeType);
        } else {
          assert w.pick(those, t.draws) in OfType(chosen, e.nodeType);
        }
      }
      forall n | n in chosen
        ensures n in s.all && exists e :: e in entries && e.nodeType == n.nodeType
      {
        if n in t.waiting {
          var e :| e in front && e.nodeType == n.nodeType;
          assert e in entries;
        } else {
          assert n in those && last in entries;
        }
      }
    }
  }

  function RandomEntries(entries: seq<Entry>, t: int): (k: nat) {
    if entries == [] then 0
    else
      var last := entries[|entries| - 1];
      RandomEntries(entries[..|entries| - 1], t) + (if last.nodeType == t then 1 else 0)
  }

  lemma SelectsOneMore(w: Plan, u: State, last: Entry, t: int)
    requires Proper(w) && (last.nodeType == t ==> last.random)
    ensures |OfType(Select(w, u, last).waiting, t)| <= |OfType(u.waiting, t)| + (if last.nodeType == t then 1 else 0)
  {
    var before, after := OfType(u.waiting, t), OfType(Select(w, u, last).waiting, t);
    var those := OfType(u.all, last.nodeType);
    if last.random && those != {} {
      assert w.pick(those, u.draws) in those;
    }
    if last.nodeType == t && those != {} {
      assert after == before + {w.pick(those, u.draws)};
    } else {
      assert after == before;
    }
  }

  /** A type that is only named at random gives no more nodes than it is named. */
  lemma {:induction false} RandomSelectsFew(w: Plan, s: State, entries: seq<Entry>, t: int)
    requires Proper(w) && s.waiting == {} && forall e :: e in entries && e.nodeType == t ==> e.random
    ensures |OfType(SelectAll(w, s, entries).waiting, t)| <= RandomEntries(entries, t)
  {
    if entries == [] {
      assert OfType({}, t) == {};
    } else {
      var front, last := entries[..|entries| - 1], entries[|entries| - 1];
      RandomSelectsFew(w, s, front, t);
      SelectsOneMore(w, SelectAll(w, s, front), last, t);
    }
  }

  // ------------------------------------------------------------- who is selected

  /** Nothing after the i-th event closes the node it opens. */
  predicate StaysOpen(events: seq<Event>, i: nat)
    requires i < |events| && events[i].Open?
  {
    forall j :: i < j < |events| ==> events[j] != Gone(events[i].node)
  }

  /** The nodes that have opened, and have not closed since they last did. */
  function OpenAfter(events: seq<Event>): (open: set<Node>) {
    set i: nat | i < |events| && events[i].Open? && StaysOpen(events, i) :: events[i].node
  }

  lemma OneMoreEvent(events: seq<Event>, e: Event)
    ensures OpenAfter(events + [e])
         == match e
            case Open(n) => OpenAfter(events) + {n}
            case Gone(n) => OpenAfter(events) - {n}
            case _ => OpenAfter(events)
  {
    var more := events + [e];
    forall n
      ensures n in OpenAfter(more) <==> (n in OpenAfter(events) && e != Gone(n)) || e == Open(n)
    {
      if n in OpenAfter(more) {
        var i: nat :| i < |more| && more[i] == Open(n) && StaysOpen(more, i);
        if i < |events| {
          forall j | i < j < |events|
            ensures events[j] != Gone(n)
          {
            assert more[j] == events[j];
          }
          assert more[i] == events[i] && StaysOpen(events, i);
          assert more[|events|] == e;
        }
      }
      if n in OpenAfter(events) && e != Gone(n) {
        var i: nat :| i < |events| && events[i] == Open(n) && StaysOpen(events, i);
        forall j | i < j < |more|
          ensures more[j] != Gone(n)
        {
          assert j < |events| ==> more[j] == events[j];
        }
        assert more[i] == Open(n) && StaysOpen(more, i);
      }
      if e == Open(n) {
        assert more[|events|] == e && StaysOpen(more, |events|);
      }
    }
  }

  lemma {:induction false} LegalFirst(on: bool, events: seq<Event>, i: nat)
    requires Legal(on, events) && i <= |events|
    ensures Legal(on, events[..i])
    decreases |events|
  {
    if i > 0 {
      LegalFirst(on || events[0].Terminate?, events[1..], i - 1);
      assert events[..i][1..] == events[1..][..i - 1];
    }
  }

  /** The state after the first i events. */
  ghost function After(w: Plan, events: seq<Event>, i: nat): (s: State)
    requires w.steps != [] && Legal(false, events) && i <= |events|
  {
    LegalFirst(false, events, i);
    Run(w, Initial, events[..i])
  }

  lemma {:induction false} RunSnoc(w: Plan, s: State, events: seq<Event>)
    requires Inv(w, s) && w.steps != [] && Legal(s.on, events) && events != []
    ensures var n := |events| - 1;
            && Legal(s.on, events[..n])
            && var r := Run(w, s, events[..n]);
               && Inv(w, r) && !(events[n].Terminate? && r.on)
               && Run(w, s, events) == Handle(w, r, events[n])
    decreases |events|
  {
    var n := |events| - 1;
    LegalFirst(s.on, events, n);
    HandleKeeps(w, s, events[0]);
    HandleExtends(w, s, events[0]);
    if n > 0 {
      RunSnoc(w, Handle(w, s, events[0]), events[1..]);
      assert events[..n][1..] == events[1..][..n - 1];
    }
  }

  lemma OneMore(w: Plan, events: seq<Event>, i: nat)
    requires w.steps != [] && Legal(false, events) && i < |events|
    ensures Inv(w, After(w, events, i)) && !(events[i].Terminate? && After(w, events, i).on)
    ensures After(w, events, i + 1) == Handle(w, After(w, events, i), events[i])
  {
    LegalFirst(false, events, i + 1);
    RunSnoc(w, Initial, events[..i + 1]);
    assert events[..i + 1][..i] == events[..i];
  }

  /** The log holds the events in order, each with the step it found. */
  lemma {:induction false} LogTells(w: Plan, events: seq<Event>, i: nat)
    requires w.steps != [] && Legal(false, events) && i <= |events|
    ensures |After(w, events, i).log| == i
    ensures forall j :: 0 <= j < i ==> After(w, events, i).log[j] == (After(w, events, j).curr, events[j])
  {
    if i == 0 {
      NobodyYet(w, events);
    } else {
      hide Handle, Inv, Legal, OpenAfter;
      LogTells(w, events, i - 1);
      OneMore(w, events, i - 1);
      LogGrows(w, After(w, events, i - 1), events[i - 1]);
    }
  }

  lemma LogGrows(w: Plan, s: State, e: Event)
    requires Inv(w, s) && !(e.Terminate? && s.on)
    ensures Handle(w, s, e).log == s.log + [(s.curr, e)]
  {
    HandleExtends(w, s, e);
  }

  /** Whoever is selected when steps begin has been selected from those known. */
  lemma {:induction false} StartSelects(w: Plan, s: State)
    requires Proper(w) && -1 <= s.curr < |w.steps| && s.waiting == {} && |s.selected| == s.curr + 1
    ensures var r := Started(w, s);
            && r.all == s.all && |r.selected| == r.curr + 1 <= |w.steps| && s.selected <= r.selected
            && forall k :: |s.selected| <= k < |r.selected| ==> Selection(s.all, w.steps[k].nodes, r.selected[k])
    decreases |w.steps| - s.curr
  {
    if s.curr + 1 < |w.steps| {
      var entries := w.steps[s.curr + 1].nodes;
      SelectsAsTold(w, s, entries);
      var t := SelectAll(w, s, entries);
      if t.waiting == {} {
        StartSelects(w, t.(curr := s.curr + 1, selected := s.selected + [t.waiting]));
      }
    }
  }

  lemma HandleSelects(w: Plan, s0: State, e: Event)
    requires Proper(w) && Inv(w, s0) && !(e.Terminate? && s0.on)
    ensures var r := Handle(w, s0, e);
            && (match e
                case Open(n) => r.all == s0.all + {n}
                case Gone(n) => r.all == s0.all - {n}
                case _ => r.all == s0.all)
            && |r.selected| == r.curr + 1 <= |w.steps| && s0.selected <= r.selected
            && forall k :: |s0.selected| <= k < |r.selected| ==> Selection(r.all, w.steps[k].nodes, r.selected[k])
  {
    var s := s0.(log := s0.log + [(s0.curr, e)]);
    match e
    case Terminate => StartSelects(w, s.(on := true));
    case Gone(n) =>
      var t := s.(all := s.all - {n}, waiting := s.waiting - {n});
      if t.waiting == {} {
        StartSelects(w, t);
      }
    case Ack(n, _) =>
      var t := s.(waiting := s.waiting - {n});
      if t.waiting == {} {
        StartSelects(w, t);
      }
    case Open(_) =>
  }

  /** Step k began with the b-th event. */
  ghost predicate BeganWith(w: Plan, events: seq<Event>, k: int, b: nat)
    requires w.steps != [] && Legal(false, events)
  {
    0 < b <= |events| && After(w, events, b - 1).curr < k <= After(w, events, b).curr
  }

  /** These are whom step k selects, as it is told, of the nodes that were open when it
      began. */
  ghost predicate SelectedOpen(w: Plan, events: seq<Event>, k: nat, chosen: set<Node>)
    requires w.steps != [] && Legal(false, events) && k < |w.steps|
  {
    exists b: nat :: BeganWith(w, events, k, b) && Selection(OpenAfter(events[..b]), w.steps[k].nodes, chosen)
  }

  /** Over every run the nodes known are those that are open, and a step selects, as it is
      told, from those that were open when it began. */
  lemma SelectedWereOpen(w: Plan, events: seq<Event>)
    requires Proper(w) && Legal(false, events)
    ensures Inv(w, Initial)
    ensures var r := Run(w, Initial, events);
            && r.all == OpenAfter(events) && |r.selected| == r.curr + 1 <= |w.steps|
            && forall k :: 0 <= k <= r.curr ==> SelectedOpen(w, events, k, r.selected[k])
  {
    hide SelectedOpen, OpenAfter;
    SelectedSoFar(w, events, |events|);
    assert events[..|events|] == events;
  }

  lemma {:induction false} SelectedSoFar(w: Plan, events: seq<Event>, i: nat)
    requires Proper(w) && Legal(false, events) && i <= |events|
    ensures var r := After(w, events, i);
            && r.all == OpenAfter(events[..i]) && |r.selected| == r.curr + 1 <= |w.steps|
            && forall k :: 0 <= k <= r.curr ==> SelectedOpen(w, events, k, r.selected[k])
  {
    hide SelectedOpen, OpenAfter, Handle, Selection, Legal;
    if i == 0 {
      NobodyYet(w, events);
    } else {
      var s, r, e := After(w, events, i - 1), After(w, events, i), events[i - 1];
      SelectedSoFar(w, events, i - 1);
      OneMore(w, events, i - 1);
      hide After, Inv;
      HandleKeeps(w, s, e);
      HandleSelects(w, s, e);
      OneMoreEvent(events[..i - 1], e);
      assert events[..i] == events[..i - 1] + [e];
      forall k | 0 <= k <= r.curr
        ensures SelectedOpen(w, events, k, r.selected[k])
      {
        if k > s.curr {
          SelectsNow(w, events, i, k, r.selected[k]);
        }
      }
    }
  }

  lemma NobodyYet(w: Plan, events: seq<Event>)
    requires w.steps != [] && Legal(false, events)
    ensures After(w, events, 0) == Initial && OpenAfter(events[..0]) == {}
  {
    assert events[..0] == [];
  }

  lemma SelectsNow(w: Plan, events: seq<Event>, i: nat, k: nat, chosen: set<Node>)
    requires w.steps != [] && Legal(false, events) && 0 < i <= |events| && k < |w.steps|
    requires After(w, events, i - 1).curr < k <= After(w, events, i).curr
    requires Selection(OpenAfter(events[..i]), w.steps[k].nodes, chosen)
    ensures SelectedOpen(w, events, k, chosen)
  {
    hide Selection, OpenAfter, After;
    assert BeganWith(w, events, k, i);
  }

  /** A CLOSE step is over exactly when everybody it waits for has closed. */
  lemma CloseEndsIff(w: Plan, s: State, events: seq<Event>)
    requires Inv(w, s) && w.steps != [] && s.on && !s.stopped && Legal(true, events)
    requires w.steps[s.curr].opt == Close
    ensures Over(s, Run(w, s, events)) <==> forall n :: n in s.waiting ==> Gone(n) in events
  {
    StepEndsIff(w, s, events);
    forall n | Gone(n) in events
      ensures exists e :: e in events && LetsGo(w, s.curr, e, n)
    {
      assert LetsGo(w, s.curr, Gone(n), n);
    }
  }

  // -------------------------------------------------------------- the handlers

  class ShutDown {
    const plan: Plan
    var allNodes: set<Node>
    var currOptNodes: set<Node>
    var currStep: int
    var shutdowning: bool
    var kernelStopped: bool
    var draws: nat
    ghost var selected: seq<set<Node>>
    ghost var log: seq<(int, Event)>

    ghost function View(): (s: State)
      reads this
    {
      State(allNodes, currOptNodes, currStep, shutdowning, kernelStopped, draws, selected, log)
    }

    constructor (plan: Plan)
      ensures this.plan == plan && View() == Initial
    {
      this.plan, allNodes, currOptNodes, currStep := plan, {}, {}, -1;
      shutdowning, kernelStopped, draws, selected, log := false, false, 0, [], [];
    }

    method OnOpen(n: Node)
      requires -1 <= currStep < |plan.steps|
      modifies this
      ensures View() == Handle(plan, old(View()), Open(n))
    {
      log := log + [(currStep, Open(n))];
      allNodes := allNodes + {n};
    }

    method OnClose(n: Node)
      requires -1 <= currStep < |plan.steps| && (shutdowning ==> currStep >= 0)
      modifies this
      ensures View() == Handle(plan, old(View()), Gone(n))
    {
      log := log + [(currStep, Gone(n))];
      allNodes := allNodes - {n};
      if shutdowning {
        if plan.steps[currStep].opt == Close {
          currOptNodes := currOptNodes - {n};
          CheckNextStep();
        }
      }
    }

    method Terminate()
      requires -1 <= currStep < |plan.steps| && !shutdowning
      modifies this
      ensures View() == Handle(plan, old(View()), Event.Terminate)
    {
      log := log + [(currStep, Event.Terminate)];
      shutdowning := true;
      StartNewStep();
    }

    method OnClusterShutdownAck(n: Node, stepIdx: int8)
      requires -1 <= currStep < |plan.steps| && (shutdowning ==> currStep >= 0)
      modifies this
      ensures View() == Handle(plan, old(View()), Ack(n, stepIdx))
    {
      log := log + [(currStep, Ack(n, stepIdx))];
      if shutdowning {
        if stepIdx == currStep {
          if plan.steps[currStep].opt == Notify {
            currOptNodes := currOptNodes - {n};
            CheckNextStep();
          }
        }
      }
    }

    /** The loop of startNewStep. */
    method SelectNodes(entries: seq<Entry>)
      modifies this`currOptNodes, this`draws
      ensures View() == SelectAll(plan, old(View()), entries)
    {
      var i := 0;
      while i < |entries|
        invariant 0 <= i <= |entries|
        invariant View() == SelectAll(plan, old(View()), entries[..i])
      {
        assert entries[..i + 1][..i] == entries[..i];
        var those := set n | n in allNodes && n.nodeType == entries[i].nodeType;
        if entries[i].random {
          if those != {} {
            currOptNodes := currOptNodes + {plan.pick(those, draws)};
          }
          draws := draws + 1;
        } else {
          currOptNodes := currOptNodes + those;
        }
        i := i + 1;
      }
      assert entries[..i] == entries;
    }

    method StartNewStep()
      requires -1 <= currStep < |plan.steps|
      modifies this
      ensures View() == Started(plan, old(View()))
      decreases |plan.steps| - currStep, 0
    {
      if currStep + 1 < |plan.steps| {
        SelectNodes(plan.steps[currStep + 1].nodes);
        currStep := currStep + 1;
        selected := selected + [currOptNodes];
        CheckNextStep();
      } else {
        kernelStopped := true;
      }
    }

    method CheckNextStep()
      requires -1 <= currStep < |plan.steps|
      modifies this
      ensures View() == Checked(plan, old(View()))
      decreases |plan.steps| - currStep, 1
    {
      if currOptNodes == {} {
        StartNewStep();
      }
    }
  }
}
