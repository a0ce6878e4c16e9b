/** How the nodes of a cluster come to know and connect each other: the master tells
    every pair of exposed nodes about each other (Master.cpp), and one of the two
    connects (Cluster.cpp). */
module Mesh {

  type int32 = k: int | -0x8000_0000 <= k < 0x8000_0000

  datatype Node = Node(nodeType: int32, id: int32)

  /** (type << 32) | id in 64 bits; the sign of a negative id covers the type. */
  function Key(n: Node): (k: int) {
    if n.id < 0 then n.id else n.nodeType * 0x1_0000_0000 + n.id
  }

  /** Two nodes share a key exactly when they are the same or have the same negative
      id. */
  lemma SameKeyIff(a: Node, b: Node)
    ensures Key(a) == Key(b) <==> a == b || (a.id < 0 && a.id == b.id)
  {
  }

  /** newNodeComing: a connects b. */
  predicate Connects(a: Node, b: Node) {
    !(a.nodeType < b.nodeType) && !(a.nodeType == b.nodeType && a.id >= b.id)
  }

  /** Of two different nodes exactly one connects the other, and no node itself. */
  lemma OneSideConnects(a: Node, b: Node)
    ensures a != b ==> (Connects(a, b) <==> !Connects(b, a))
    ensures !Connects(a, a)
  {
  }

  // ------------------------------------------------------------ the two sides

  /** An announcement: `to` is told about `about`. */
  datatype Msg = Msg(to: Node, about: Node)

  function Announced(others: set<Node>, n: Node): (m: set<Msg>) {
    (set o | o in others :: Msg(o, n)) + (set o | o in others :: Msg(n, o))
  }

  class Master {
    const exposes: set<int>
    var nodes: map<int, Node>

    ghost predicate Valid()
      reads this
    {
      forall k :: k in nodes ==> Key(nodes[k]) == k
    }

    constructor (exposes: set<int>)
      ensures Valid() && nodes == map[] && this.exposes == exposes
    {
      this.exposes, nodes := exposes, map[];
    }

    /** onOpen: when a node of an exposed type is new to the master, each of the
        others hears of it once, and it hears of each of them once. */
    method OnOpen(n: Node) returns (sent: seq<Msg>)
      requires Valid()
      modifies this
      ensures Valid()
      ensures if n.nodeType !in exposes || Key(n) in old(nodes) then sent == [] && nodes == old(nodes)
              else nodes == old(nodes)[Key(n) := n] && multiset(sent) == multiset(Announced(old(nodes).Values, n))
    {
      sent := [];
      if n.nodeType !in exposes {
        return;
      }
      if Key(n) in nodes {
        return;
      }
      ghost var others := nodes;
      nodes := nodes[Key(n) := n];
      sent := TellAll(nodes, n);
      assert (set k | k in nodes && k != Key(n) :: nodes[k]) == others.Values by {
        assert forall k :: k in others ==> k in nodes && k != Key(n) && nodes[k] == others[k];
      }
    }
  }

  /** The loop of onOpen over all nodes but the new one. */
  method TellAll(nodes: map<int, Node>, n: Node) returns (sent: seq<Msg>)
    requires forall k :: k in nodes ==> Key(nodes[k]) == k
    ensures multiset(sent) == multiset(Announced(set k | k in nodes && k != Key(n) :: nodes[k], n))
  {
    sent := [];
    var left := nodes.Keys;
    ghost var told: set<Node> := {};
    while left != {}
      invariant left <= nodes.Keys
      invariant told == set k | k in nodes && k !in left && k != Key(n) :: nodes[k]
      invariant multiset(sent) == multiset(Announced(told, n))
      decreases |left|
    {
      SomeKey(left);
      var k :| k in left;
      left := left - {k};
      if k != Key(n) {
        TellsOneMore(nodes, left, k, n, told);
        sent := sent + [Msg(nodes[k], n), Msg(n, nodes[k])];
        told := told + {nodes[k]};
      }
    }
  }

  lemma SomeKey(keys: set<int>)
    ensures keys == {} || exists k :: k in keys
  {
    if forall k :: k !in keys {
      assert keys == {};
    }
  }

  lemma TellsOneMore(nodes: map<int, Node>, left: set<int>, k: int, n: Node, told: set<Node>)
    requires forall k :: k in nodes ==> Key(nodes[k]) == k
    requires k in nodes && k !in left && k != Key(n)
    requires told == set j | j in nodes && j !in left + {k} && j != Key(n) :: nodes[j]
    ensures multiset(Announced(told + {nodes[k]}, n))
         == multiset(Announced(told, n)) + multiset{Msg(nodes[k], n), Msg(n, nodes[k])}
    ensures told + {nodes[k]} == set j | j in nodes && j !in left && j != Key(n) :: nodes[j]
  {
    var o := nodes[k];
    assert Key(o) == k;
    OneMoreTold(told, o, n);
  }

  lemma OneMoreTold(told: set<Node>, o: Node, n: Node)
    requires o !in told && o != n && n !in told
    ensures multiset(Announced(told + {o}, n)) == multiset(Announced(told, n)) + multiset{Msg(o, n), Msg(n, o)}
  {
    assert Announced(told + {o}, n) == Announced(told, n) + {Msg(o, n), Msg(n, o)};
    assert Msg(o, n) !in Announced(told, n) && Msg(n, o) !in Announced(told, n);
  }

  class Cluster {
    const self: Node
    var openNodes: set<int>

    constructor (self: Node)
      ensures this.self == self && openNodes == {}
    {
      this.self, openNodes := self, {};
    }

    /** newNodeComing: whether it connects. */
    method NewNodeComing(n: Node) returns (connects: bool)
      modifies this
      ensures connects == (Key(n) !in old(openNodes) && Connects(self, n))
      ensures openNodes == if connects then old(openNodes) + {Key(n)} else old(openNodes)
    {
      if Key(n) in openNodes {
        return false;
      }
      if self.nodeType < n.nodeType {
        return false;
      }
      if self.nodeType == n.nodeType && self.id >= n.id {
        return false;
      }
      openNodes := openNodes + {Key(n)};
      connects := true;
    }
  }

  // --------------------------------------------------------------------- runs

  /** Whom the master knows, what is on its way, what has arrived, which keys each
      node has open, and who has connected whom. */
  datatype State = State(exposes: set<int>, known: set<Node>, flight: multiset<Msg>, arrived: multiset<Msg>,
                         open: set<(Node, int)>, connected: multiset<(Node, Node)>)

  datatype Act = Register(n: Node) | Deliver(m: Msg)

  function Keys(nodes: set<Node>): (k: set<int>) {
    set n | n in nodes :: Key(n)
  }

  function Step(s: State, a: Act): (r: State) {
    match a
    case Register(n) =>
      if n.nodeType !in s.exposes || Key(n) in Keys(s.known) then s
      else s.(known := s.known + {n}, flight := s.flight + multiset(Announced(s.known, n)))
    case Deliver(m) =>
      if m !in s.flight then s
      else
        var t := s.(flight := s.flight - multiset{m}, arrived := s.arrived + multiset{m});
        if (m.to, Key(m.about)) in s.open || !Connects(m.to, m.about) then t
        else t.(open := s.open + {(m.to, Key(m.about))}, connected := s.connected + multiset{(m.to, m.about)})
  }

  function Run(s: State, acts: seq<Act>): (r: State)
    decreases |acts|
  {
    if acts == [] then s else Run(Step(s, acts[0]), acts[1..])
  }

  function Initial(exposes: set<int>): (s: State) {
    State(exposes, {}, multiset{}, multiset{}, {}, multiset{})
  }

  predicate Told(s: State, a: Node, b: Node) {
    s.arrived[Msg(a, b)] > 0
  }

  /** Each of a pair is told about the other exactly once, and what it does about it
      is what it has done. */
  ghost predicate PairIs(s: State, a: Node, b: Node) {
    && s.flight[Msg(a, b)] + s.arrived[Msg(a, b)] == (if a in s.known && b in s.known && a != b then 1 else 0)
    && s.connected[(a, b)] == (if Told(s, a, b) && Connects(a, b) then 1 else 0)
    && (b in s.known ==> ((a, Key(b)) in s.open <==> Told(s, a, b) && Connects(a, b)))
    && ((a, Key(b)) in s.open ==> Key(b) in Keys(s.known))
  }

  /** The nodes the master knows have keys of their own. */
  ghost predicate OwnKeys(nodes: set<Node>) {
    forall a, b :: a in nodes && b in nodes && a != b ==> Key(a) != Key(b)
  }

  ghost predicate Inv(s: State) {
    OwnKeys(s.known) && forall a, b :: PairIs(s, a, b)
  }

  lemma RegisterPair(s: State, n: Node, a: Node, b: Node)
    requires PairIs(s, a, b) && Key(n) !in Keys(s.known)
    ensures PairIs(Step(s, Register(n)), a, b)
  {
    var sent := Announced(s.known, n);
    assert n in s.known ==> Key(n) in Keys(s.known);
    assert Msg(a, b) in sent <==> (a in s.known && b == n) || (a == n && b in s.known);
    assert Keys(s.known) <= Keys(s.known + {n});
  }

  lemma DeliverPair(s: State, m: Msg, a: Node, b: Node)
    requires PairIs(s, a, b) && PairIs(s, m.to, m.about) && m in s.flight && OwnKeys(s.known)
    ensures PairIs(Step(s, Deliver(m)), a, b)
  {
    assert m == Msg(m.to, m.about) && m.about in s.known;
    assert Msg(a, b) == m <==> a == m.to && b == m.about;
    assert Key(m.about) in Keys(s.known);
  }

  lemma StepKeeps(s: State, act: Act)
    requires Inv(s)
    ensures Inv(Step(s, act))
  {
    forall a, b
      ensures PairIs(Step(s, act), a, b)
    {
      assert PairIs(s, a, b);
      match act
      case Register(n) =>
        if Key(n) !in Keys(s.known) {
          RegisterPair(s, n, a, b);
        }
      case Deliver(m) =>
        if m in s.flight {
          assert PairIs(s, m.to, m.about);
          DeliverPair(s, m, a, b);
        }
    }
  }

  lemma {:induction false} RunKeeps(s: State, acts: seq<Act>)
    requires Inv(s)
    ensures Inv(Run(s, acts))
    decreases |acts|
  {
    if acts != [] {
      StepKeeps(s, acts[0]);
      RunKeeps(Step(s, acts[0]), acts[1..]);
    }
  }

  /** In whatever order nodes register and announcements arrive: once all have arrived,
      every pair the master knows is connected exactly once, by the node of the larger type
      or, if they are of one type, by that with the smaller id, and no node is connected to
      itself. Before that, never more than once. */
  lemma FullMesh(exposes: set<int>, acts: seq<Act>)
    ensures var s := Run(Initial(exposes), acts);
            && (forall a, b :: a != b && a in s.known && b in s.known && s.flight == multiset{} ==>
                  s.connected[(a, b)] + s.connected[(b, a)] == 1)
            && (forall a, b :: a in s.known && b in s.known && s.flight == multiset{} ==>
                  s.connected[(a, b)]
                  == if a.nodeType > b.nodeType || (a.nodeType == b.nodeType && a.id < b.id) then 1 else 0)
            && (forall a, b :: s.connected[(a, b)] + s.connected[(b, a)] <= 1)
            && (forall a :: (a, a) !in s.connected)
  {
    RunKeeps(Initial(exposes), acts);
    var s := Run(Initial(exposes), acts);
    forall a, b
      ensures s.connected[(a, b)] + s.connected[(b, a)] <= 1
      ensures a != b && a in s.known && b in s.known && s.flight == multiset{} ==>
                s.connected[(a, b)] + s.connected[(b, a)] == 1
      ensures a in s.known && b in s.known && s.flight == multiset{} ==>
                s.connected[(a, b)]
                == if a.nodeType > b.nodeType || (a.nodeType == b.nodeType && a.id < b.id) then 1 else 0
    {
      assert PairIs(s, a, b) && PairIs(s, b, a);
      OneSideConnects(a, b);
    }
  }

  /** The exposed nodes that have registered. */
  function Registered(exposes: set<int>, acts: seq<Act>): (r: set<Node>) {
    set i | 0 <= i < |acts| && acts[i].Register? && acts[i].n.nodeType in exposes :: acts[i].n
  }

  lemma RegisteredRest(exposes: set<int>, acts: seq<Act>)
    requires acts != []
    ensures Registered(exposes, acts)
         == Registered(exposes, acts[..1]) + Registered(exposes, acts[1..])
  {
    forall n
      ensures n in Registered(exposes, acts) <==>
              n in Registered(exposes, acts[..1]) || n in Registered(exposes, acts[1..])
    {
      if n in Registered(exposes, acts) {
        var i :| 0 <= i < |acts| && acts[i] == Register(n) && n.nodeType in exposes;
        assert if i == 0 then acts[..1][0] == Register(n) else acts[1..][i - 1] == Register(n);
      }
    }
  }

  /** The master ends up with one node for every key. */
  lemma {:induction false} OneForEachKey(s: State, acts: seq<Act>)
    ensures var r := Run(s, acts);
            && s.known <= r.known <= s.known + Registered(s.exposes, acts)
            && Keys(r.known) == Keys(s.known + Registered(s.exposes, acts))
    decreases |acts|
  {
    if acts != [] {
      var t := Step(s, acts[0]);
      OneForEachKey(t, acts[1..]);
      RegisteredRest(s.exposes, acts);
      FirstKnown(s, acts);
    } else {
      assert s.known + Registered(s.exposes, acts) == s.known;
    }
  }

  lemma FirstKnown(s: State, acts: seq<Act>)
    requires acts != []
    ensures var t, first := Step(s, acts[0]), Registered(s.exposes, acts[..1]);
            s.known <= t.known <= s.known + first && t.exposes == s.exposes
            && forall more: set<Node> :: Keys(t.known + more) == Keys(s.known + first + more)
  {
    var t, first := Step(s, acts[0]), Registered(s.exposes, acts[..1]);
    if acts[0].Register? && acts[0].n.nodeType in s.exposes {
      assert first == {acts[0].n} by {
        assert acts[..1][0] == acts[0];
      }
    } else {
      assert first == {};
    }
    forall more: set<Node>
      ensures Keys(t.known + more) == Keys(s.known + first + more)
    {
      if t.known == s.known + first {
      } else {
        var m :| m in s.known && Key(m) == Key(acts[0].n);
        assert t.known == s.known;
        assert m in t.known + more && m in s.known + first + more;
      }
    }
  }

  /** So every exposed node that has registered is part of the mesh exactly when no two
      of them have the same negative id. */
  lemma NobodyLeftOutIff(exposes: set<int>, acts: seq<Act>)
    ensures Run(Initial(exposes), acts).known == Registered(exposes, acts) <==>
              forall a, b | a in Registered(exposes, acts) && b in Registered(exposes, acts) ::
                a.id < 0 && a.id == b.id ==> a == b
  {
    hide Run, Registered, Key;
    var known, all := Run(Initial(exposes), acts).known, Registered(exposes, acts);
    OneForEachKey(Initial(exposes), acts);
    RunKeeps(Initial(exposes), acts);
    assert {} + all == all;
    if forall a, b :: a in all && b in all && a.id < 0 && a.id == b.id ==> a == b {
      forall n | n in all
        ensures n in known
      {
        assert Key(n) in Keys(all) && Keys(all) == Keys(known);
        var m :| m in known && Key(m) == Key(n);
        SameKeyIff(m, n);
      }
    } else {
      var a, b :| a in all && b in all && a.id < 0 && a.id == b.id && a != b;
      SameKeyIff(a, b);
    }
  }

  /** Two nodes of different exposed types with the same negative id: the second one is
      told nobody and nobody is told of it. */
  lemma LeftOut(exposes: set<int>, a: Node, b: Node)
    requires a.nodeType in exposes && b.nodeType in exposes && a != b && a.id == b.id < 0
    ensures var acts := [Register(a), Register(b)];
            var s := Run(Initial(exposes), acts);
            b in Registered(exposes, acts) && s.known == {a} && s.flight == multiset{}
  {
    var acts := [Register(a), Register(b)];
    SameKeyIff(a, b);
    var s1 := Step(Initial(exposes), acts[0]);
    assert Key(a) in Keys({a});
    assert s1.known == {a} && s1.flight == multiset{} && Announced({}, a) == {};
    assert acts[1..][0] == Register(b) && acts[1..][1..] == [];
    assert Run(s1, acts[1..]) == Run(Step(s1, Register(b)), []);
    assert acts[1] == Register(b);
  }

  // ------------------------------------------------------------- the cluster

  /** The master, the nodes that have been started, and what is between them. */
  class Network {
    const master: Master
    var clusters: map<Node, Cluster>
    var flight: seq<Msg>
    var connections: seq<(Node, Node)>
    ghost var arrived: multiset<Msg>

    ghost predicate Valid()
      reads this, master, clusters.Values
    {
      && master.Valid()
      && (forall k :: k in master.nodes ==> master.nodes[k] in clusters)
      && (forall m :: m in flight ==> m.to in clusters)
      && (forall n :: n in clusters ==> clusters[n].self == n)
    }

    ghost function Opened(): (open: set<(Node, int)>)
      reads this`clusters, clusters.Values
    {
      set n, k | n in clusters && k in clusters[n].openNodes :: (n, k)
    }

    ghost function Value(): (s: State)
      reads this, master, clusters.Values
    {
      State(master.exposes, master.nodes.Values, multiset(flight), arrived, Opened(), multiset(connections))
    }

    constructor (exposes: set<int>)
      ensures Valid() && Value() == Initial(exposes) && fresh(master) && clusters == map[]
    {
      var m := new Master(exposes);
      master, clusters, flight, connections, arrived := m, map[], [], [], multiset{};
    }

    /** A node opens its connection to the master, or an announcement reaches its node. */
    method Do(a: Act)
      requires Valid()
      modifies this, master, clusters.Values
      ensures Valid() && Value() == Step(old(Value()), a)
      ensures fresh(clusters.Values - old(clusters.Values))
    {
      hide Valid, Value, Step;
      match a
      case Register(n) => Open(n);
      case Deliver(m) => Arrive(m);
    }

    method Open(n: Node)
      requires Valid()
      modifies this`clusters, this`flight, master
      ensures Valid() && Value() == Step(old(Value()), Register(n))
      ensures fresh(clusters.Values - old(clusters.Values))
    {
      hide Valid, Value, Step;
      if n !in clusters {
        Start(n);
      }
      Tell(n);
    }

    method Tell(n: Node)
      requires Valid() && n in clusters
      modifies this`flight, master
      ensures Valid() && Value() == Step(old(Value()), Register(n))
    {
      hide Announced, Keys, Key;
      KnownKeys(master.nodes, n);
      ghost var others := master.nodes.Values;
      var sent := master.OnOpen(n);
      flight := flight + sent;
      SentTo(sent, others, n);
      assert Opened() == old(Opened());
    }

    method Start(n: Node)
      requires Valid() && n !in clusters
      modifies this`clusters
      ensures Valid() && Value() == old(Value()) && n in clusters
      ensures fresh(clusters.Values - old(clusters.Values))
    {
      var c := new Cluster(n);
      clusters := clusters[n := c];
    }

    method Arrive(m: Msg)
      requires Valid()
      modifies this`flight, this`arrived, this`connections, clusters.Values
      ensures Valid() && Value() == Step(old(Value()), Deliver(m))
    {
      hide Step, Key, Connects, Opened, Valid;
      ghost var was := Value();
      if m in flight {
        Hear(m);
        TakeOff(m);
      }
      Delivered(was, Value(), m);
    }

    method TakeOff(m: Msg)
      requires Valid() && m in flight
      modifies this`flight, this`arrived
      ensures Valid() && Opened() == old(Opened())
      ensures multiset(flight) == multiset(old(flight)) - multiset{m} && arrived == old(arrived) + multiset{m}
      ensures forall k :: k in flight ==> k in old(flight)
    {
      var i :| 0 <= i < |flight| && flight[i] == m;
      assert flight == flight[..i] + [m] + flight[i + 1..];
      flight := flight[..i] + flight[i + 1..];
      arrived := arrived + multiset{m};
    }

    method Hear(m: Msg)
      requires Valid() && m in flight
      modifies this`connections, clusters.Values
      ensures Valid()
      ensures var connects := (m.to, Key(m.about)) !in old(Opened()) && Connects(m.to, m.about);
              && Opened() == old(Opened()) + (if connects then {(m.to, Key(m.about))} else {})
              && multiset(connections)
                 == multiset(old(connections)) + (if connects then multiset{(m.to, m.about)} else multiset{})
    {
      var connects := clusters[m.to].NewNodeComing(m.about);
      if connects {
        connections := connections + [(m.to, m.about)];
      }
      assert forall n :: n in clusters && n != m.to ==> clusters[n] != clusters[m.to];
    }
  }

  lemma Delivered(s: State, r: State, m: Msg)
    requires r.exposes == s.exposes && r.known == s.known
    requires m !in s.flight ==> r == s
    requires m in s.flight ==>
               var connects := (m.to, Key(m.about)) !in s.open && Connects(m.to, m.about);
               && r.flight == s.flight - multiset{m} && r.arrived == s.arrived + multiset{m}
               && r.open == s.open + (if connects then {(m.to, Key(m.about))} else {})
               && r.connected == s.connected + (if connects then multiset{(m.to, m.about)} else multiset{})
    ensures r == Step(s, Deliver(m))
  {
  }

  lemma SentTo(sent: seq<Msg>, others: set<Node>, n: Node)
    ensures sent == [] || multiset(sent) == multiset(Announced(others, n)) ==>
              forall m :: m in sent ==> m.to == n || m.to in others
  {
    if multiset(sent) == multiset(Announced(others, n)) {
      forall m | m in sent
        ensures m.to == n || m.to in others
      {
        assert m in multiset(sent);
      }
    }
  }

  lemma KnownKeys(nodes: map<int, Node>, n: Node)
    requires forall k :: k in nodes ==> Key(nodes[k]) == k
    ensures Keys(nodes.Values) == nodes.Keys
    ensures Key(n) !in nodes ==> nodes[Key(n) := n].Values == nodes.Values + {n}
  {
    forall k | k in nodes
      ensures k in Keys(nodes.Values)
    {
      assert nodes[k] in nodes.Values && Key(nodes[k]) == k;
    }
    if Key(n) !in nodes {
      var more := nodes[Key(n) := n];
      forall m
        ensures m in more.Values <==> m in nodes.Values + {n}
      {
        assert n == more[Key(n)] && forall k :: k in nodes ==> more[k] == nodes[k];
      }
    }
  }

  /** In whatever order nodes register and announcements arrive, the master and its nodes go
      through a run of the protocol; once nothing is on its way any more, each two nodes the
      master knows are connected once, by the node of the larger type or, in one type, by that
      with the smaller id. */
  method Gather(exposes: set<int>, acts: seq<Act>) returns (net: Network)
    ensures net.Valid() && net.Value() == Run(Initial(exposes), acts)
    ensures forall a, b | a in net.master.nodes.Values && b in net.master.nodes.Values && net.flight == [] ::
              multiset(net.connections)[(a, b)]
              == if a.nodeType > b.nodeType || (a.nodeType == b.nodeType && a.id < b.id) then 1 else 0
  {
    hide Network.Valid, Network.Value, Step, Run;
    net := new Network(exposes);
    NoActs(Initial(exposes), acts);
    for i := 0 to |acts|
      invariant net.Valid() && net.Value() == Run(Initial(exposes), acts[..i])
      invariant fresh(net) && fresh(net.master) && fresh(net.clusters.Values)
    {
      net.Do(acts[i]);
      RunSnoc(Initial(exposes), acts, i);
    }
    Gathered(net, exposes, acts);
  }

  lemma Gathered(net: Network, exposes: set<int>, acts: seq<Act>)
    requires net.Value() == Run(Initial(exposes), acts)
    ensures forall a, b | a in net.master.nodes.Values && b in net.master.nodes.Values && net.flight == [] ::
              multiset(net.connections)[(a, b)]
              == if a.nodeType > b.nodeType || (a.nodeType == b.nodeType && a.id < b.id) then 1 else 0
  {
    hide Run;
    FullMesh(exposes, acts);
  }

  lemma NoActs(s: State, acts: seq<Act>)
    ensures Run(s, acts[..0]) == s && acts[..|acts|] == acts
  {
  }

  lemma {:induction false} RunSnoc(s: State, acts: seq<Act>, i: nat)
    requires i < |acts|
    ensures Run(s, acts[..i + 1]) == Step(Run(s, acts[..i]), acts[i])
    decreases |acts|
  {
    assert acts[..i + 1][1..] == acts[1..][..i];
    if i > 0 {
      assert acts[..i][1..] == acts[1..][..i - 1];
      RunSnoc(Step(s, acts[0]), acts[1..], i - 1);
    }
  }
}
