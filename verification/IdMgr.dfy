/** Ids made of a tick, an area and a sequence number (IdMgr.cpp), and their way
    from the master through the pools of the nodes. */
module Ids {
  import opened Sequences

  const SEQUENCES: nat := 32          // SEQUENCE_MASK + 1
  const AREAS: nat := 1024            // AREA_MASK + 1
  const TICK_MASK: nat := 0x2_0000_0000_0000
  const WORD: nat := 0x1_0000_0000_0000_0000

  /** The tick is shifted by AREA_BITS + SEQUENCE_MASK, that is 41, in 64 bits. */
  const SHIFT: nat := 0x200_0000_0000

  /** The ticks that stay apart after the shift: 2^23 milliseconds. */
  const WINDOW: nat := 0x80_0000

  function IdOf(tick: nat, area: int, sequence: nat): (id: nat) {
    tick % TICK_MASK * SHIFT % WORD + area % AREAS * SEQUENCES + sequence % SEQUENCES
  }

  /** Only 23 bits of the tick are left in an id. */
  lemma TickBits(tick: nat)
    ensures tick % TICK_MASK * SHIFT % WORD == tick % WINDOW * SHIFT
  {
    var t := tick % TICK_MASK;
    assert t % WINDOW == tick % WINDOW;
    var q := t / WINDOW;
    assert t * SHIFT == q * WORD + t % WINDOW * SHIFT;
  }

  /** Every part of an id can be read off it. */
  lemma FieldsRead(tick: nat, area: int, sequence: nat)
    ensures var id := IdOf(tick, area, sequence);
            && id % 32 == sequence % 32 && id / 32 % 0x400 == area % 0x400
            && id / 0x200_0000_0000 == tick % 0x80_0000 && id % 0x200_0000_0000 < 0x8000
  {
    TickBits(tick);
    Layout(tick % WINDOW, area % AREAS, sequence % SEQUENCES);
  }

  lemma Layout(t: nat, a: nat, s: nat)
    requires a < 0x400 && s < 32
    ensures var id := t * 0x200_0000_0000 + a * 32 + s;
            && id % 32 == s && id / 32 % 0x400 == a && id / 0x200_0000_0000 == t && id % 0x200_0000_0000 < 0x8000
  {
  }

  /** Two ids are the same exactly when their sequence numbers are, their areas are
      in ten bits, and their ticks differ by a multiple of 2^23. */
  lemma SameIdIff(t1: nat, a1: int, s1: nat, t2: nat, a2: int, s2: nat)
    requires s1 < SEQUENCES && s2 < SEQUENCES
    ensures IdOf(t1, a1, s1) == IdOf(t2, a2, s2) <==>
              s1 == s2 && a1 % AREAS == a2 % AREAS && t1 % WINDOW == t2 % WINDOW
  {
    TickBits(t1);
    TickBits(t2);
    var u1, u2 := t1 % WINDOW, t2 % WINDOW;
    var v1, v2 := a1 % AREAS, a2 % AREAS;
    assert v1 * SEQUENCES + s1 < SHIFT && v2 * SEQUENCES + s2 < SHIFT;
  }

  lemma SameRemainder(t: nat)
    ensures (t + WINDOW) % WINDOW == t % WINDOW
  {
  }

  /** Ids come back after 2^23 milliseconds. */
  lemma IdComesBack(t: nat, area: int, sequence: nat)
    requires sequence < SEQUENCES
    ensures IdOf(t + WINDOW, area, sequence) == IdOf(t, area, sequence)
  {
    SameRemainder(t);
    SameIdIff(t + WINDOW, area, sequence, t, area, sequence);
  }

  // --------------------------------------------------------------- generation

  datatype Stamp = Stamp(tick: nat, sequence: nat)

  predicate Before(a: Stamp, b: Stamp) {
    a.tick < b.tick || (a.tick == b.tick && a.sequence < b.sequence)
  }

  /** The stamps strictly increase. */
  ghost predicate Rising(s: seq<Stamp>) {
    && (forall i :: 0 <= i < |s| ==> s[i].sequence < SEQUENCES)
    && (forall i, j :: 0 <= i < j < |s| ==> Before(s[i], s[j]))
  }

  lemma RisesWith(s: seq<Stamp>, next: Stamp)
    requires Rising(s) && next.sequence < SEQUENCES && (s != [] ==> Before(s[|s| - 1], next))
    ensures Rising(s + [next])
  {
    var r := s + [next];
    forall i, j | 0 <= i < j < |r|
      ensures Before(r[i], r[j])
    {
      if j == |s| && i < |s| - 1 {
        assert Before(s[i], s[|s| - 1]);
      }
    }
  }

  function IdsOf(s: seq<Stamp>, area: int): (ids: seq<nat>)
    ensures |ids| == |s| && forall i :: 0 <= i < |s| ==> ids[i] == IdOf(s[i].tick, area, s[i].sequence)
  {
    seq(|s|, i requires 0 <= i < |s| => IdOf(s[i].tick, area, s[i].sequence))
  }

  ghost predicate Within(s: seq<Stamp>, span: nat) {
    forall i, j :: 0 <= i < j < |s| ==> s[j].tick < s[i].tick + span
  }

  /** Ids made in less than 2^23 milliseconds are pairwise distinct. */
  lemma WindowIsDistinct(s: seq<Stamp>, area: int)
    requires Rising(s) && Within(s, WINDOW)
    ensures NoDup(IdsOf(s, area))
  {
    var ids := IdsOf(s, area);
    forall i, j | 0 <= i < j < |ids|
      ensures ids[i] != ids[j]
    {
      assert Before(s[i], s[j]);
      StampsApart(s[i], s[j], area);
    }
  }

  lemma StampsApart(a: Stamp, b: Stamp, area: int)
    requires a.sequence < SEQUENCES && b.sequence < SEQUENCES && Before(a, b) && b.tick < a.tick + WINDOW
    ensures IdOf(a.tick, area, a.sequence) != IdOf(b.tick, area, b.sequence)
  {
    SameIdIff(a.tick, area, a.sequence, b.tick, area, b.sequence);
    if a.tick % WINDOW == b.tick % WINDOW {
      CloseTicks(a.tick, b.tick);
    }
  }

  lemma CloseTicks(t: nat, u: nat)
    requires t <= u < t + WINDOW && t % WINDOW == u % WINDOW
    ensures t == u
  {
  }

  /** A clock that never goes back. */
  class Clock {
    var tick: nat
    ghost var waits: nat    // how often it has been waited for

    constructor ()
    {
      tick, waits := 0, 0;
    }

    method Read() returns (now: nat)
      modifies this
      ensures now == tick >= old(tick) && waits == old(waits)
    {
      var more: nat :| more >= 0;
      tick := tick + more;
      now := tick;
    }

    /** Reading until the clock has left a tick it has reached. */
    method WaitPast(last: nat) returns (now: nat)
      requires last <= tick
      modifies this
      ensures now == tick > last && tick >= old(tick) && waits == old(waits) + 1
    {
      waits := waits + 1;
      now := Read();
      if now == last {
        tick := tick + 1;
        now := tick;
      }
    }
  }

  const GIVE_NUM: nat := 20

  class IdMgr {
    const areaId: int
    const clock: Clock
    var started: bool          // the statics of generateId have been initialised
    var lastTimeTick: nat
    var sequence: nat
    ghost var stamps: seq<Stamp>

    ghost predicate Valid()
      reads this, clock
    {
      && Rising(stamps) && sequence < SEQUENCES && lastTimeTick <= clock.tick
      && (!started ==> stamps == []) && (stamps == [] ==> sequence == 0)
      && (stamps != [] ==> stamps[|stamps| - 1] == Stamp(lastTimeTick, sequence))
    }

    constructor (areaId: int, clock: Clock)
      ensures Valid() && stamps == [] && this.clock == clock && this.areaId == areaId
    {
      this.areaId, this.clock := areaId, clock;
      started, lastTimeTick, sequence, stamps := false, 0, 0, [];
    }

    /** generateId: at most 32 ids a millisecond; the 33rd waits. */
    method GenerateId() returns (id: nat)
      requires Valid()
      modifies this, clock
      ensures Valid() && |stamps| == |old(stamps)| + 1 && stamps[..|old(stamps)|] == old(stamps)
      ensures var stamp := stamps[|old(stamps)|];
              && id == IdOf(stamp.tick, areaId, stamp.sequence)
              && old(clock.tick) <= stamp.tick <= clock.tick
              && (old(stamps) != [] ==>
                    var last := old(stamps)[|old(stamps)| - 1];
                    stamp == Stamp(last.tick, last.sequence + 1) || (stamp.tick > last.tick && stamp.sequence == 0))
              && stamp.sequence < 32
              && (clock.waits != old(clock.waits) ==>
                    old(stamps) != [] && old(stamps)[|old(stamps)| - 1].sequence == 31)
    {
      if !started {
        lastTimeTick := clock.Read();
        started := true;
      }
      var nowTimeTick := clock.Read();
      if lastTimeTick == nowTimeTick {
        sequence := (sequence + 1) % SEQUENCES;
        if sequence == 0 {
          nowTimeTick := clock.WaitPast(lastTimeTick);
        }
      } else {
        sequence := 0;
      }
      lastTimeTick := nowTimeTick;
      RisesWith(stamps, Stamp(nowTimeTick, sequence));
      stamps := stamps + [Stamp(nowTimeTick, sequence)];
      id := IdOf(nowTimeTick, areaId, sequence);
    }

    /** askIds: a batch of twenty. */
    method AskIds() returns (ids: seq<nat>)
      requires Valid()
      modifies this, clock
      ensures Valid() && |ids| == 20 && |stamps| == |old(stamps)| + 20
      ensures stamps[..|old(stamps)|] == old(stamps) && ids == IdsOf(stamps[|old(stamps)|..], areaId)
    {
      ids := [];
      while |ids| < GIVE_NUM
        invariant Valid() && |ids| <= GIVE_NUM && |stamps| == |old(stamps)| + |ids|
        invariant stamps[..|old(stamps)|] == old(stamps) && ids == IdsOf(stamps[|old(stamps)|..], areaId)
      {
        ghost var before := stamps;
        var id := GenerateId();
        assert stamps[|old(stamps)|..] == before[|old(stamps)|..] + [stamps[|before|]];
        assert stamps[..|old(stamps)|] == before[..|old(stamps)|];
        ids := ids + [id];
      }
    }
  }

  // ------------------------------------------------------------- distribution

  datatype Parcel = Parcel(node: nat, ids: seq<nat>)

  /** The ids made by the master, the batches on their way, the pools of the nodes and
      what each node has allocated, oldest first. */
  datatype Net = Net(made: seq<nat>, flight: seq<Parcel>, pools: seq<seq<nat>>,
                     taken: seq<(nat, nat)>, lost: seq<nat>)

  datatype Act = Give(node: nat, ids: seq<nat>) | Deliver(i: nat) | Lose(i: nat) | Alloc(node: nat)

  /** One step; what cannot happen changes nothing. A pool is used from its end. */
  function Step(n: Net, a: Act): (r: Net) {
    match a
    case Give(node, ids) =>
      if node < |n.pools| then n.(made := n.made + ids, flight := n.flight + [Parcel(node, ids)]) else n
    case Deliver(i) =>
      if i < |n.flight| && n.flight[i].node < |n.pools| then
        var p := n.flight[i];
        n.(flight := Cut(n.flight, i), pools := n.pools[p.node := n.pools[p.node] + p.ids])
      else n
    case Lose(i) => if i < |n.flight| then n.(flight := Cut(n.flight, i), lost := n.lost + n.flight[i].ids) else n
    case Alloc(node) =>
      if node < |n.pools| && n.pools[node] != [] then
        var pool := n.pools[node];
        n.(pools := n.pools[node := pool[..|pool| - 1]], taken := n.taken + [(node, pool[|pool| - 1])])
      else n
  }

  function Run(n: Net, acts: seq<Act>): (r: Net)
    decreases |acts|
  {
    if acts == [] then n else Run(Step(n, acts[0]), acts[1..])
  }

  ghost function InFlight(f: seq<Parcel>): (m: multiset<nat>) {
    if f == [] then multiset{} else multiset(f[0].ids) + InFlight(f[1..])
  }

  ghost function InPools(p: seq<seq<nat>>): (m: multiset<nat>) {
    if p == [] then multiset{} else multiset(p[0]) + InPools(p[1..])
  }

  function IdsIn(s: seq<(nat, nat)>): (ids: seq<nat>)
    ensures |ids| == |s| && forall i :: 0 <= i < |s| ==> ids[i] == s[i].1
  {
    if s == [] then [] else IdsIn(s[..|s| - 1]) + [s[|s| - 1].1]
  }

  /** Every id made is in exactly one place. */
  ghost predicate Conserved(n: Net) {
    multiset(n.made) == InFlight(n.flight) + InPools(n.pools) + multiset(IdsIn(n.taken)) + multiset(n.lost)
  }

  lemma Exchange(a: multiset<nat>, b: multiset<nat>, c: multiset<nat>)
    ensures (a + b) + c == (a + c) + b
  {
  }

  lemma Moves(f: multiset<nat>, p: multiset<nat>, x: multiset<nat>, a: multiset<nat>, l: multiset<nat>)
    ensures f + (p + x) + a + l == f + p + (a + x) + l
    ensures (f + x) + p + a + l == f + (p + x) + a + l == f + p + a + (l + x)
  {
  }

  lemma {:induction false} FlightAppends(f: seq<Parcel>, p: Parcel)
    ensures InFlight(f + [p]) == InFlight(f) + multiset(p.ids)
  {
    if f == [] {
      assert f + [p] == [p] && [p][1..] == [];
    } else {
      FlightAppends(f[1..], p);
      assert (f + [p])[1..] == f[1..] + [p];
    }
  }

  lemma {:induction false} FlightWithout(f: seq<Parcel>, i: nat)
    requires i < |f|
    ensures InFlight(f) == InFlight(Cut(f, i)) + multiset(f[i].ids)
  {
    if i == 0 {
      assert Cut(f, 0) == f[1..];
    } else {
      var rest := f[1..];
      FlightWithout(rest, i - 1);
      CutBehind(f, i);
      FlightSplits(f[0], rest, Cut(rest, i - 1), f, Cut(f, i), multiset(f[i].ids));
    }
  }

  lemma CutBehind<T>(f: seq<T>, i: nat)
    requires 0 < i < |f|
    ensures Cut(f, i) == [f[0]] + Cut(f[1..], i - 1)
  {
  }

  lemma FlightSplits(p: Parcel, rest: seq<Parcel>, less: seq<Parcel>, f: seq<Parcel>, g: seq<Parcel>, x: multiset<nat>)
    requires f == [p] + rest && g == [p] + less && InFlight(rest) == InFlight(less) + x
    ensures InFlight(f) == InFlight(g) + x
  {
    assert f[1..] == rest && g[1..] == less;
  }

  lemma {:induction false} PoolGrows(p: seq<seq<nat>>, i: nat, grown: seq<nat>, more: multiset<nat>)
    requires i < |p| && multiset(grown) == multiset(p[i]) + more
    ensures InPools(p[i := grown]) == InPools(p) + more
  {
    if i == 0 {
      assert p[i := grown][1..] == p[1..];
      Exchange(multiset(p[0]), more, InPools(p[1..]));
    } else {
      PoolGrows(p[1..], i - 1, grown, more);
      assert p[i := grown][1..] == p[1..][i - 1 := grown];
    }
  }

  lemma DeliverConserves(n: Net, i: nat)
    requires Conserved(n) && i < |n.flight| && n.flight[i].node < |n.pools|
    ensures Conserved(Step(n, Deliver(i)))
  {
    var p := n.flight[i];
    FlightWithout(n.flight, i);
    PoolGrows(n.pools, p.node, n.pools[p.node] + p.ids, multiset(p.ids));
    Moves(InFlight(Cut(n.flight, i)), InPools(n.pools), multiset(p.ids), multiset(IdsIn(n.taken)), multiset(n.lost));
  }

  lemma AllocConserves(n: Net, node: nat)
    requires Conserved(n) && node < |n.pools| && n.pools[node] != []
    ensures Conserved(Step(n, Alloc(node)))
  {
    hide InFlight, InPools;
    var pool := n.pools[node];
    var rest, id := pool[..|pool| - 1], pool[|pool| - 1];
    assert pool == rest + [id];
    PoolGrows(n.pools[node := rest], node, pool, multiset{id});
    assert n.pools[node := rest][node := pool] == n.pools;
    var after := n.taken + [(node, id)];
    assert after[..|after| - 1] == n.taken;
    assert IdsIn(after) == IdsIn(n.taken) + [id];
    Moves(InFlight(n.flight), InPools(n.pools[node := rest]), multiset{id}, multiset(IdsIn(n.taken)), multiset(n.lost));
  }

  lemma GiveConserves(n: Net, node: nat, ids: seq<nat>)
    requires Conserved(n)
    ensures Conserved(Step(n, Give(node, ids)))
  {
    FlightAppends(n.flight, Parcel(node, ids));
    Given(InFlight(n.flight), InPools(n.pools), multiset(IdsIn(n.taken)), multiset(n.lost), multiset(ids));
  }

  lemma Given(f: multiset<nat>, p: multiset<nat>, a: multiset<nat>, l: multiset<nat>, x: multiset<nat>)
    ensures (f + x) + p + a + l == f + p + a + l + x
  {
  }

  lemma LoseConserves(n: Net, i: nat)
    requires Conserved(n) && i < |n.flight|
    ensures Conserved(Step(n, Lose(i)))
  {
    FlightWithout(n.flight, i);
    Moves(InFlight(Cut(n.flight, i)), InPools(n.pools), multiset(n.flight[i].ids), multiset(IdsIn(n.taken)),
          multiset(n.lost));
  }

  lemma StepConserves(n: Net, a: Act)
    requires Conserved(n)
    ensures Conserved(Step(n, a))
  {
    hide Conserved;
    match a
    case Give(node, ids) => GiveConserves(n, node, ids);
    case Deliver(i) =>
      if i < |n.flight| && n.flight[i].node < |n.pools| {
        DeliverConserves(n, i);
      }
    case Lose(i) =>
      if i < |n.flight| {
        LoseConserves(n, i);
      }
    case Alloc(node) =>
      if node < |n.pools| && n.pools[node] != [] {
        AllocConserves(n, node);
      }
  }

  lemma {:induction false} RunConserves(n: Net, acts: seq<Act>)
    requires Conserved(n)
    ensures Conserved(Run(n, acts))
    decreases |acts|
  {
    if acts != [] {
      StepConserves(n, acts[0]);
      RunConserves(Step(n, acts[0]), acts[1..]);
    }
  }

  predicate Initial(n: Net) {
    && n.made == [] && n.flight == [] && n.taken == [] && n.lost == []
    && forall i :: 0 <= i < |n.pools| ==> n.pools[i] == []
  }

  lemma {:induction false} EmptyPools(p: seq<seq<nat>>)
    requires forall i :: 0 <= i < |p| ==> p[i] == []
    ensures InPools(p) == multiset{}
  {
    if p != [] {
      EmptyPools(p[1..]);
    }
  }

  lemma {:induction false} Twice(s: seq<nat>, x: nat) returns (k: nat, m: nat)
    requires multiset(s)[x] >= 2
    ensures k < m < |s| && s[k] == s[m] == x
    decreases |s|
  {
    assert s == [s[0]] + s[1..];
    if s[0] == x {
      assert x in multiset(s[1..]);
      k, m :| k == 0 && 0 < m < |s| && s[m] == x;
    } else {
      k, m := Twice(s[1..], x);
      k, m := k + 1, m + 1;
    }
  }

  lemma TwoPlaces(whole: seq<nat>, part: seq<nat>, i: nat, j: nat) returns (k: nat, m: nat)
    requires multiset(part) <= multiset(whole) && i < j < |part| && part[i] == part[j]
    ensures k < m < |whole| && whole[k] == whole[m] == part[i]
  {
    assert part == part[..i] + [part[i]] + part[i + 1..j] + [part[j]] + part[j + 1..];
    k, m := Twice(whole, part[i]);
  }

  function Quiet(nodes: nat): (n: Net) {
    Net([], [], seq(nodes, i => []), [], [])
  }

  /** The first node is given all ids and allocates them, the last one first. */
  function TakeAll(ids: seq<nat>): (acts: seq<Act>) {
    [Give(0, ids), Deliver(0)] + seq(|ids|, _ => Alloc(0))
  }

  function Backwards(ids: seq<nat>): (r: seq<nat>)
    ensures |r| == |ids|
  {
    if ids == [] then [] else [ids[|ids| - 1]] + Backwards(ids[..|ids| - 1])
  }

  lemma {:induction false} BackwardsAt(ids: seq<nat>, i: nat)
    requires i < |ids|
    ensures Backwards(ids)[|ids| - 1 - i] == ids[i]
    decreases |ids|
  {
    if i < |ids| - 1 {
      BackwardsAt(ids[..|ids| - 1], i);
    }
  }

  lemma AllocStep(n: Net, node: nat, keep: seq<nat>, top: seq<nat>)
    requires node < |n.pools| && n.pools[node] == keep + top && top != []
    ensures var r := Step(n, Alloc(node));
            && r.made == n.made && r.pools == n.pools[node := keep + top[..|top| - 1]]
            && IdsIn(r.taken) == IdsIn(n.taken) + [top[|top| - 1]]
  {
    var r, pool := Step(n, Alloc(node)), n.pools[node];
    assert r.taken[..|r.taken| - 1] == n.taken;
    assert pool[..|pool| - 1] == keep + top[..|top| - 1];
  }

  /** Allocating the end of a pool. */
  lemma {:induction false} AllocMany(n: Net, node: nat, keep: seq<nat>, top: seq<nat>)
    requires node < |n.pools| && n.pools[node] == keep + top
    ensures var r := Run(n, seq(|top|, _ => Alloc(node)));
            && r.made == n.made && r.pools == n.pools[node := keep]
            && IdsIn(r.taken) == IdsIn(n.taken) + Backwards(top)
    decreases |top|
  {
    hide Step, IdsIn;
    var acts := seq(|top|, _ => Alloc(node));
    if top == [] {
      assert n.pools[node] == keep;
    } else {
      var rest := top[..|top| - 1];
      AllocStep(n, node, keep, top);
      assert acts[0] == Alloc(node) && acts[1..] == seq(|rest|, _ => Alloc(node));
      AllocMany(Step(n, Alloc(node)), node, keep, rest);
      JoinAssociates(IdsIn(n.taken), [top[|top| - 1]], Backwards(rest));
    }
  }

  /** A batch goes on top of the pool: what the node allocates next is the batch, from its
      end, before anything that was in the pool. */
  lemma BatchGoesFirst(n: Net, i: nat)
    requires i < |n.flight| && n.flight[i].node < |n.pools|
    ensures var p := n.flight[i];
            var r := Run(Step(n, Deliver(i)), seq(|p.ids|, _ => Alloc(p.node)));
            && r.pools == n.pools && r.made == n.made
            && IdsIn(r.taken) == IdsIn(n.taken) + Backwards(p.ids)
  {
    var p := n.flight[i];
    AllocMany(Step(n, Deliver(i)), p.node, n.pools[p.node], p.ids);
    assert n.pools[p.node := n.pools[p.node]] == n.pools;
  }

  lemma FirstBatch(ids: seq<nat>)
    ensures var n := Step(Step(Quiet(1), Give(0, ids)), Deliver(0));
            n.pools == [ids] && n.made == ids && n.taken == []
  {
    var n1 := Step(Quiet(1), Give(0, ids));
    assert n1.flight == [Parcel(0, ids)] && n1.pools == [[]];
    var n2 := Step(n1, Deliver(0));
    assert [] + ids == ids;
    assert n2.pools == [ids] && n2.made == ids && n2.taken == [];
  }

  lemma TakesAll(ids: seq<nat>)
    ensures var r := Run(Quiet(1), TakeAll(ids));
            Initial(Quiet(1)) && r.made == ids && IdsIn(r.taken) == Backwards(ids)
  {
    var acts, allocs := TakeAll(ids), seq(|ids|, _ => Alloc(0));
    hide Step, InFlight, InPools;
    var n1 := Step(Quiet(1), Give(0, ids));
    var n2 := Step(n1, Deliver(0));
    FirstBatch(ids);
    assert [] + ids == ids;
    AllocMany(n2, 0, [], ids);
    assert acts[0] == Give(0, ids) && acts[1..] == [Deliver(0)] + allocs;
    assert ([Deliver(0)] + allocs)[1..] == allocs;
    assert Run(Quiet(1), acts) == Run(n1, [Deliver(0)] + allocs);
    assert Run(n1, [Deliver(0)] + allocs) == Run(n2, allocs);
    assert [] + Backwards(ids) == Backwards(ids);
  }

  /** These two of the master's stamps give the id, and at least 2^23 milliseconds lie
      between them. */
  predicate MadeTwice(s: seq<Stamp>, area: int, id: nat, i: nat, j: nat) {
    && i < j < |s| && s[i].tick + WINDOW <= s[j].tick
    && IdOf(s[i].tick, area, s[i].sequence) == id == IdOf(s[j].tick, area, s[j].sequence)
  }

  /** The same id has been allocated twice only if the master has made it twice, at
      least 2^23 milliseconds apart. */
  ghost predicate ApartIfSame(taken: seq<(nat, nat)>, s: seq<Stamp>, area: int) {
    forall i, j :: 0 <= i < j < |taken| && taken[i].1 == taken[j].1 ==>
      exists k: nat, m: nat :: MadeTwice(s, area, taken[i].1, k, m)
  }

  /** In any run in which the master makes its ids one after the other no two allocations
      return the same id, whatever node it is and whatever is lost on the way, unless the
      master has made it twice, at least 2^23 milliseconds apart. */
  lemma SameIdFarApart(n0: Net, acts: seq<Act>, s: seq<Stamp>, area: int)
    requires Initial(n0) && Rising(s) && Run(n0, acts).made == IdsOf(s, area)
    ensures ApartIfSame(Run(n0, acts).taken, s, area)
  {
    EmptyPools(n0.pools);
    RunConserves(n0, acts);
    var n := Run(n0, acts);
    forall i, j | 0 <= i < j < |n.taken| && n.taken[i].1 == n.taken[j].1
      ensures exists k: nat, m: nat :: MadeTwice(s, area, n.taken[i].1, k, m)
    {
      var k, m := TwoPlaces(n.made, IdsIn(n.taken), i, j);
      assert Before(s[k], s[m]);
      if s[m].tick < s[k].tick + WINDOW {
        StampsApart(s[k], s[m], area);
      }
      assert MadeTwice(s, area, n.taken[i].1, k, m);
    }
  }

  /** Of some stamps there is a run that allocates an id twice exactly when two of them,
      at least 2^23 milliseconds apart, give the same id. */
  lemma NoIdTwiceIff(s: seq<Stamp>, area: int)
    requires Rising(s)
    ensures (forall n0, acts :: Initial(n0) && Run(n0, acts).made == IdsOf(s, area) ==>
               NoDup(IdsIn(Run(n0, acts).taken)))
            <==> forall id: nat, k: nat, m: nat :: !MadeTwice(s, area, id, k, m)
  {
    if id: nat, k: nat, m: nat :| MadeTwice(s, area, id, k, m) {
      var ids := IdsOf(s, area);
      TakesAll(ids);
      BackwardsAt(ids, k);
      BackwardsAt(ids, m);
      assert !NoDup(IdsIn(Run(Quiet(1), TakeAll(ids)).taken));
    } else {
      forall n0, acts | Initial(n0) && Run(n0, acts).made == IdsOf(s, area)
        ensures NoDup(IdsIn(Run(n0, acts).taken))
      {
        SameIdFarApart(n0, acts, s, area);
      }
    }
  }

  /** What goes on between the master and its nodes: a node asks for ids, a batch
      arrives or is lost, a node allocates an id. */
  datatype Traffic = Ask(node: nat) | Arrive(i: nat) | Drop(i: nat) | Take(node: nat)

  /** The act is what becomes of it: for an Ask, a batch for that node. */
  predicate Becomes(t: Traffic, a: Act) {
    match t
    case Ask(node) => a.Give? && a.node == node && |a.ids| == GIVE_NUM
    case Arrive(i) => a == Deliver(i)
    case Drop(i) => a == Lose(i)
    case Take(node) => a == Alloc(node)
  }

  lemma {:induction false} RunSnoc(n: Net, acts: seq<Act>, a: Act)
    ensures Run(n, acts + [a]) == Step(Run(n, acts), a)
    decreases |acts|
  {
    if acts == [] {
      assert [a][1..] == [];
    } else {
      assert (acts + [a])[1..] == acts[1..] + [a];
      RunSnoc(Step(n, acts[0]), acts[1..], a);
    }
  }

  lemma MadeBy(n: Net, a: Act)
    ensures Step(n, a).made == if a.Give? && a.node < |n.pools| then n.made + a.ids else n.made
    ensures |Step(n, a).pools| == |n.pools|
  {
  }

  lemma IdsJoin(a: seq<Stamp>, b: seq<Stamp>, area: int)
    ensures IdsOf(a + b, area) == IdsOf(a, area) + IdsOf(b, area)
  {
  }

  /** One piece of traffic; the master answers a request with its next twenty ids. */
  method ServeOne(master: IdMgr, net: Net, t: Traffic) returns (r: Net, a: Act)
    requires master.Valid() && (t.Ask? ==> t.node < |net.pools|)
    requires net.made == IdsOf(master.stamps, master.areaId)
    modifies master, master.clock
    ensures master.Valid() && Becomes(t, a) && r == Step(net, a) && |r.pools| == |net.pools|
    ensures r.made == IdsOf(master.stamps, master.areaId)
  {
    match t {
      case Ask(node) =>
        ghost var before := master.stamps;
        var ids := master.AskIds();
        assert master.stamps == before + master.stamps[|before|..];
        IdsJoin(before, master.stamps[|before|..], master.areaId);
        a := Give(node, ids);
      case Arrive(i) => a := Deliver(i);
      case Drop(i) => a := Lose(i);
      case Take(node) => a := Alloc(node);
    }
    MadeBy(net, a);
    r := Step(net, a);
  }

  /** Whatever the traffic and however long the master runs, no two allocations of any two
      nodes return the same id unless the master has made it twice, at least 2^23
      milliseconds apart. */
  method Serve(master: IdMgr, nodes: nat, traffic: seq<Traffic>) returns (net: Net, ghost acts: seq<Act>)
    requires master.Valid() && master.stamps == []
    requires forall i :: 0 <= i < |traffic| && traffic[i].Ask? ==> traffic[i].node < nodes
    modifies master, master.clock
    ensures master.Valid() && net == Run(Quiet(nodes), acts)
    ensures |acts| == |traffic| && forall i :: 0 <= i < |acts| ==> Becomes(traffic[i], acts[i])
    ensures net.made == IdsOf(master.stamps, master.areaId)
    ensures ApartIfSame(net.taken, master.stamps, master.areaId)
  {
    net, acts := Quiet(nodes), [];
    for i := 0 to |traffic|
      invariant master.Valid() && net == Run(Quiet(nodes), acts) && |net.pools| == nodes
      invariant |acts| == i && forall k :: 0 <= k < i ==> Becomes(traffic[k], acts[k])
      invariant net.made == IdsOf(master.stamps, master.areaId)
    {
      var a;
      net, a := ServeOne(master, net, traffic[i]);
      RunSnoc(Quiet(nodes), acts, a);
      acts := acts + [a];
    }
    SameIdFarApart(Quiet(nodes), acts, master.stamps, master.areaId);
  }
}
