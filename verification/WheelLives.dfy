/** The wheel with its timers: the flat table, the run list in order and the life of
    every timer there has been. TimerWheel proves that each operation of the wheel is a
    step of this world; here follows what the world promises over every run. */
module WheelLives {
  import opened Sequences
  import opened WheelMath
  import L = TimerLife
  import WheelRuns

  datatype World<T> = World(table: WheelRuns.Flat<T>, queue: seq<T>, lives: map<T, L.Life>)

  datatype Call<T> =
    | Start(t: T, life: L.Life)   // startTimer has made t
    | Kill(t: T) | Pause(t: T) | Resume(t: T)
    | Tick(moved: seq<T>)         // a tick has moved these to the run list
    | Poll(does: L.Reaction)      // one round of the polling loop

  predicate Alive<T>(s: World<T>, t: T) {
    t in s.lives && !s.lives[t].stat.Destroy?
  }

  /** t is taken out of the list it is in. */
  function Take<T(==)>(s: World<T>, t: T): (r: World<T>) {
    s.(table := WheelRuns.Step(s.table, WheelRuns.Drop(t)), queue := Without(s.queue, t))
  }

  /** schedule. */
  function Put<T>(s: World<T>, t: T): (r: World<T>)
    requires t in s.lives
  {
    var l := s.lives[t];
    s.(table := WheelRuns.Step(s.table, WheelRuns.Arm(t, l.expire, l.stat.Paused?)),
       queue := if l.expire <= s.table.now then s.queue + [t] else s.queue)
  }

  /** The times are in the range of the counters. */
  predicate Counts(l: L.Life, now: nat) {
    now < TWO_63 && l.expire < TWO_64 && l.interval < TWO_63
  }

  /** What happens in t's life in this call. */
  function OwnOps<T(==)>(s: World<T>, c: Call<T>, t: T): (ops: seq<L.Op>) {
    if !Alive(s, t) then []
    else
      var l, now := s.lives[t], s.table.now;
      match c
      case Start(_, _) => []
      case Kill(u) => if u == t then [L.Kill(now)] else []
      case Pause(u) => if u == t then [L.Pause(now)] else []
      case Resume(u) => if u == t && l.stat.Paused? then [L.Resume(now)] else []
      case Tick(_) => []
      case Poll(does) =>
        if s.queue != [] && s.queue[0] == t then [PollOp(l, now, does)] else []
  }

  /** A poll; only a callback that is made can do anything. */
  function PollOp(l: L.Life, now: nat, does: L.Reaction): (op: L.Op) {
    L.Poll(now, if l.delaying || l.count != 0 then does else L.Nothing)
  }

  /** The life after that. */
  function Lived(l: L.Life, now: nat, ops: seq<L.Op>): (r: L.Life) {
    if ops == [] then l
    else
      match ops[0]
      case Kill(_) => L.Ended(l, true, false)
      case Pause(at) => l.(stat := L.Paused, pause := at)
      case _ => if Counts(l, now) && ops[0].now == now then L.Step(l, ops[0]) else l
  }

  function Do<T(==)>(s: World<T>, c: Call<T>): (r: World<T>) {
    match c
    case Start(t, life) => Put(s.(lives := s.lives[t := life]), t)
    case Kill(t) => if Alive(s, t) then Take(Change(s, c, t), t) else s
    case Pause(t) =>
      if Alive(s, t) then Change(s, c, t).(table := WheelRuns.Step(s.table, WheelRuns.Pause(t))) else s
    case Resume(t) => if Alive(s, t) && s.lives[t].stat.Paused? then Put(Take(Change(s, c, t), t), t) else s
    case Tick(moved) => s.(table := WheelRuns.Step(s.table, WheelRuns.Tick), queue := s.queue + moved)
    case Poll(_) =>
      if s.queue == [] || !Alive(s, s.queue[0]) then s
      else
        var t := s.queue[0];
        var r := Take(Change(s, c, t), t);
        if Alive(r, t) then Put(r, t) else r
  }

  function Change<T(==)>(s: World<T>, c: Call<T>, t: T): (r: World<T>)
    requires t in s.lives
  {
    s.(lives := s.lives[t := Lived(s.lives[t], s.table.now, OwnOps(s, c, t))])
  }

  ghost predicate SameMembers<T>(l: seq<T>, m: set<T>) {
    (forall t :: t in l ==> t in m) && (forall t :: t in m ==> t in l)
  }

  // what the calls come to, seen from the wheel

  /** The life after one poll. */
  function AfterPoll(l: L.Life, now: nat, does: L.Reaction): (r: L.Life) {
    Lived(l, now, [PollOp(l, now, does)])
  }

  /** Only a callback that is made makes a difference. */
  lemma HeardOnly(l: L.Life, now: nat, does: L.Reaction)
    requires Counts(l, now)
    ensures AfterPoll(l, now, does) == L.Step(l, L.Poll(now, does))
  {
  }

  lemma KillIs<T>(s: World<T>, t: T, r: World<T>)
    requires Alive(s, t) && r.lives == s.lives[t := L.Ended(s.lives[t], true, false)]
    requires r.table == WheelRuns.Step(s.table, WheelRuns.Drop(t)) && r.queue == Without(s.queue, t)
    ensures r == Do(s, Kill(t))
  {
  }

  lemma ResumeIs<T>(s: World<T>, t: T, r: World<T>)
    requires Alive(s, t) && s.lives[t].stat.Paused? && Counts(s.lives[t], s.table.now)
    requires r.lives == s.lives[t := L.Step(s.lives[t], L.Resume(s.table.now))]
    requires r.table == WheelRuns.Step(WheelRuns.Step(s.table, WheelRuns.Drop(t)),
                                       WheelRuns.Arm(t, r.lives[t].expire, false))
    requires r.queue == Without(s.queue, t) + (if r.lives[t].expire <= s.table.now then [t] else [])
    ensures r == Do(s, Resume(t))
  {
    var m := Take(Change(s, Resume(t), t), t);
    assert m.lives == r.lives && Put(m, t).table == r.table && Put(m, t).queue == r.queue;
  }

  /** Nothing can be done to a dead timer. */
  lemma DeadIgnored<T>(s: World<T>, t: T)
    requires !Alive(s, t)
    ensures Do(s, Kill(t)) == Do(s, Pause(t)) == Do(s, Resume(t)) == s
  {
  }

  /** A new timer as startTimer makes it, and a tick that moves exactly the timers that
      are due, in any order, before the counter gets too large. */
  ghost predicate Possible<T>(s: World<T>, c: Call<T>) {
    match c
    case Start(t, life) => t !in s.lives && NewLife(life, s.table.now)
    case Tick(moved) =>
      && s.table.now + 1 < L.MAX_JIFFIES
      && NoDup(moved) && SameMembers(moved, WheelRuns.Due(s.table))
    case _ => true
  }

  predicate NewLife(l: L.Life, now: nat) {
    l.stat.Recreate? && l.delaying && l.log == [] && L.Sane(l, now)
  }

  // ---------------------------------------------------------------- invariant

  ghost predicate WaitsWell<T>(s: World<T>, t: T)
    requires t in s.table.waiting
  {
    && Alive(s, t) && t !in s.table.ready && L.Sane(s.lives[t], s.table.now)
    && s.table.waiting[t].due == s.table.waiting[t].expire == s.lives[t].expire
    && (t in s.table.paused <==> s.lives[t].stat.Paused?)
  }

  ghost predicate ReadyWell<T>(s: World<T>, t: T) {
    Alive(s, t) && L.Sane(s.lives[t], s.table.now) && s.lives[t].expire <= s.table.now
  }

  /** Exactly the live timers are in a list, each in one, and each ready one has
      expired. */
  ghost predicate Inv<T>(s: World<T>) {
    && s.table.now < L.MAX_JIFFIES
    && NoDup(s.queue) && SameMembers(s.queue, s.table.ready)
    && s.table.paused <= s.table.waiting.Keys
    && (forall t :: t in s.table.waiting ==> WaitsWell(s, t))
    && (forall t :: t in s.table.ready ==> ReadyWell(s, t))
    && (forall t :: t in s.lives && Alive(s, t) ==> t in s.table.waiting || t in s.table.ready)
  }

  /** Where a live timer is put. */
  lemma PutKeeps<T>(s: World<T>, t: T)
    requires Alive(s, t) && L.Sane(s.lives[t], s.table.now)
    requires t !in s.table.waiting && t !in s.table.ready && t !in s.table.paused
    requires s.table.now < L.MAX_JIFFIES && NoDup(s.queue) && SameMembers(s.queue, s.table.ready)
    requires s.table.paused <= s.table.waiting.Keys
    requires forall u :: u in s.table.waiting ==> WaitsWell(s, u)
    requires forall u :: u in s.table.ready ==> ReadyWell(s, u)
    requires forall u :: u in s.lives && Alive(s, u) && u != t ==> u in s.table.waiting || u in s.table.ready
    ensures Inv(Put(s, t))
  {
    var r := Put(s, t);
    forall u | u in r.table.waiting
      ensures WaitsWell(r, u)
    {
      assert u != t ==> WaitsWell(s, u);
    }
    forall u | u in r.table.ready
      ensures ReadyWell(r, u)
    {
      assert u != t ==> ReadyWell(s, u);
    }
  }

  /** A timer taken out, whatever becomes of its life. */
  lemma TakeKeeps<T>(s: World<T>, t: T, life: L.Life)
    requires Inv(s) && t in s.lives
    ensures var r := Take(s.(lives := s.lives[t := life]), t);
            && t !in r.table.waiting && t !in r.table.ready && t !in r.table.paused && t !in r.queue
            && NoDup(r.queue) && SameMembers(r.queue, r.table.ready)
            && r.table.paused <= r.table.waiting.Keys && r.table.now == s.table.now
            && (forall u :: u in r.table.waiting ==> WaitsWell(r, u))
            && (forall u :: u in r.table.ready ==> ReadyWell(r, u))
            && (forall u :: u in r.lives && Alive(r, u) && u != t ==> u in r.table.waiting || u in r.table.ready)
            && r.lives == s.lives[t := life]
  {
    var r := Take(s.(lives := s.lives[t := life]), t);
    WithoutNoDup(s.queue, t);
    forall u | u in r.table.waiting
      ensures WaitsWell(r, u)
    {
      assert WaitsWell(s, u);
    }
    forall u | u in r.table.ready
      ensures ReadyWell(r, u)
    {
      assert ReadyWell(s, u);
    }
    forall u | u in r.lives && Alive(r, u) && u != t
      ensures u in r.table.waiting || u in r.table.ready
    {
      assert Alive(s, u);
    }
  }

  /** What is done to a live timer is something its life allows. */
  lemma OwnStep<T>(s: World<T>, c: Call<T>, t: T)
    requires Inv(s) && Alive(s, t) && OwnOps(s, c, t) != []
    ensures L.Sane(s.lives[t], s.table.now) && L.Enabled(s.lives[t], s.table.now, OwnOps(s, c, t)[0])
    ensures Counts(s.lives[t], s.table.now) && OwnOps(s, c, t)[0].now == s.table.now
    ensures Lived(s.lives[t], s.table.now, OwnOps(s, c, t)) == L.Step(s.lives[t], OwnOps(s, c, t)[0])
    ensures L.Sane(L.Step(s.lives[t], OwnOps(s, c, t)[0]), s.table.now)
  {
    assert t in s.table.waiting ==> WaitsWell(s, t);
    assert t in s.table.ready ==> ReadyWell(s, t);
    L.StepStaysSane(s.lives[t], s.table.now, OwnOps(s, c, t)[0]);
  }

  lemma KillKeeps<T>(s: World<T>, t: T)
    requires Inv(s)
    ensures Inv(Do(s, Kill(t)))
  {
    if Alive(s, t) {
      OwnStep(s, Kill(t), t);
      TakeKeeps(s, t, Lived(s.lives[t], s.table.now, OwnOps(s, Kill(t), t)));
    }
  }

  lemma PauseKeeps<T>(s: World<T>, t: T)
    requires Inv(s)
    ensures Inv(Do(s, Pause(t)))
  {
    if Alive(s, t) {
      OwnStep(s, Pause(t), t);
      var r := Do(s, Pause(t));
      forall u | u in r.table.waiting
        ensures WaitsWell(r, u)
      {
        assert WaitsWell(s, u);
      }
      forall u | u in r.table.ready
        ensures ReadyWell(r, u)
      {
        assert ReadyWell(s, u);
      }
      forall u | u in r.lives && Alive(r, u)
        ensures u in r.table.waiting || u in r.table.ready
      {
        assert Alive(s, u);
      }
    }
  }

  lemma ResumeKeeps<T>(s: World<T>, t: T)
    requires Inv(s)
    ensures Inv(Do(s, Resume(t)))
  {
    if Alive(s, t) && s.lives[t].stat.Paused? {
      OwnStep(s, Resume(t), t);
      TakeKeeps(s, t, Lived(s.lives[t], s.table.now, OwnOps(s, Resume(t), t)));
      PutKeeps(Take(Change(s, Resume(t), t), t), t);
    }
  }

  lemma PollKeeps<T>(s: World<T>, does: L.Reaction)
    requires Inv(s)
    ensures Inv(Do(s, Poll(does)))
  {
    if s.queue != [] && Alive(s, s.queue[0]) {
      var t := s.queue[0];
      OwnStep(s, Poll(does), t);
      TakeKeeps(s, t, Lived(s.lives[t], s.table.now, OwnOps(s, Poll(does), t)));
      var r := Take(Change(s, Poll(does), t), t);
      if Alive(r, t) {
        PutKeeps(r, t);
      }
    }
  }

  lemma StartKeeps<T>(s: World<T>, t: T, life: L.Life)
    requires Inv(s) && Possible(s, Start(t, life))
    ensures Inv(Do(s, Start(t, life)))
  {
    var r := s.(lives := s.lives[t := life]);
    forall u | u in r.table.waiting
      ensures u != t && WaitsWell(r, u)
    {
      assert WaitsWell(s, u);
    }
    forall u | u in r.table.ready
      ensures u != t && ReadyWell(r, u)
    {
      assert ReadyWell(s, u);
    }
    forall u | u in r.lives && Alive(r, u) && u != t
      ensures u in r.table.waiting || u in r.table.ready
    {
      assert Alive(s, u);
    }
    PutKeeps(r, t);
  }

  lemma TickKeeps<T>(s: World<T>, moved: seq<T>)
    requires Inv(s) && Possible(s, Tick(moved))
    ensures Inv(Do(s, Tick(moved)))
  {
    var r := Do(s, Tick(moved));
    forall t | t in moved
      ensures t in s.table.waiting && t !in s.queue
    {
      assert WaitsWell(s, t);
    }
    JoinNoDup(s.queue, moved);
    forall u | u in r.table.waiting
      ensures WaitsWell(r, u)
    {
      assert WaitsWell(s, u);
    }
    forall u | u in r.table.ready
      ensures ReadyWell(r, u)
    {
      if u in s.table.ready {
        assert ReadyWell(s, u);
      } else {
        assert WaitsWell(s, u);
      }
    }
    forall u | u in r.lives && Alive(r, u)
      ensures u in r.table.waiting || u in r.table.ready
    {
      assert Alive(s, u);
    }
  }

  lemma DoKeeps<T>(s: World<T>, c: Call<T>)
    requires Inv(s) && Possible(s, c)
    ensures Inv(Do(s, c)) && Do(s, c).table.now >= s.table.now
  {
    match c
    case Start(t, life) => StartKeeps(s, t, life);
    case Kill(t) => KillKeeps(s, t);
    case Pause(t) => PauseKeeps(s, t);
    case Resume(t) => ResumeKeeps(s, t);
    case Tick(moved) => TickKeeps(s, moved);
    case Poll(does) => PollKeeps(s, does);
  }

  // --------------------------------------------------------------------- runs

  function Run<T(==)>(s: World<T>, calls: seq<Call<T>>): (r: World<T>)
    decreases |calls|
  {
    if calls == [] then s else Run(Do(s, calls[0]), calls[1..])
  }

  ghost predicate AllPossible<T>(s: World<T>, calls: seq<Call<T>>)
    decreases |calls|
  {
    calls == [] || (Possible(s, calls[0]) && AllPossible(Do(s, calls[0]), calls[1..]))
  }

  lemma {:induction false} RunKeeps<T>(s: World<T>, calls: seq<Call<T>>)
    requires Inv(s) && AllPossible(s, calls)
    ensures Inv(Run(s, calls)) && Run(s, calls).table.now >= s.table.now
    decreases |calls|
  {
    if calls != [] {
      DoKeeps(s, calls[0]);
      RunKeeps(Do(s, calls[0]), calls[1..]);
    }
  }

  lemma {:induction false} RunSnoc<T>(s: World<T>, calls: seq<Call<T>>, c: Call<T>)
    ensures Run(s, calls + [c]) == Do(Run(s, calls), c)
    ensures AllPossible(s, calls) && Possible(Run(s, calls), c) ==> AllPossible(s, calls + [c])
    decreases |calls|
  {
    if calls == [] {
      assert [c][1..] == [];
    } else {
      assert (calls + [c])[1..] == calls[1..] + [c];
      RunSnoc(Do(s, calls[0]), calls[1..], c);
    }
  }

  lemma {:induction false} RunAppends<T>(s: World<T>, calls: seq<Call<T>>, more: seq<Call<T>>)
    ensures Run(s, calls + more) == Run(Run(s, calls), more)
    decreases |calls|
  {
    if calls == [] {
      assert calls + more == more;
    } else {
      assert (calls + more)[1..] == calls[1..] + more;
      RunAppends(Do(s, calls[0]), calls[1..], more);
    }
  }

  // ------------------------------------------------------------ the flat table

  /** What the call does to the table. */
  function TableOps<T(==)>(s: World<T>, c: Call<T>): (ops: seq<WheelRuns.Op<T>>) {
    var r := Do(s, c);
    match c
    case Start(t, life) => [WheelRuns.Arm(t, life.expire, life.stat.Paused?)]
    case Kill(t) => if Alive(s, t) then [WheelRuns.Drop(t)] else []
    case Pause(t) => if Alive(s, t) then [WheelRuns.Pause(t)] else []
    case Resume(t) =>
      if Alive(s, t) && s.lives[t].stat.Paused? then Again(Change(s, c, t), t) else []
    case Tick(_) => [WheelRuns.Tick]
    case Poll(_) =>
      if s.queue == [] || !Alive(s, s.queue[0]) then []
      else if Alive(Change(s, c, s.queue[0]), s.queue[0]) then Again(Change(s, c, s.queue[0]), s.queue[0])
      else [WheelRuns.Drop(s.queue[0])]
  }

  function Again<T>(s: World<T>, t: T): (ops: seq<WheelRuns.Op<T>>)
    requires t in s.lives
  {
    [WheelRuns.Drop(t), WheelRuns.Arm(t, s.lives[t].expire, s.lives[t].stat.Paused?)]
  }

  function AllTableOps<T(==)>(s: World<T>, calls: seq<Call<T>>): (ops: seq<WheelRuns.Op<T>>)
    decreases |calls|
  {
    if calls == [] then [] else TableOps(s, calls[0]) + AllTableOps(Do(s, calls[0]), calls[1..])
  }

  lemma DoesTable<T>(s: World<T>, c: Call<T>)
    ensures Do(s, c).table == WheelRuns.Run(s.table, TableOps(s, c))
  {
    var ops := TableOps(s, c);
    if |ops| == 1 {
      assert ops[1..] == [];
    } else if |ops| == 2 {
      assert ops[1..] == [ops[1]] && [ops[1]][1..] == [];
      assert WheelRuns.Run(s.table, ops)
          == WheelRuns.Run(WheelRuns.Step(WheelRuns.Step(s.table, ops[0]), ops[1]), []);
    }
  }

  /** Every run of the world is a run of the table, so that all that WheelRuns promises
      of the table holds of the wheel. */
  lemma {:induction false} RunsTable<T>(s: World<T>, calls: seq<Call<T>>)
    ensures Run(s, calls).table == WheelRuns.Run(s.table, AllTableOps(s, calls))
    decreases |calls|
  {
    if calls != [] {
      var r := Do(s, calls[0]);
      DoesTable(s, calls[0]);
      RunsTable(r, calls[1..]);
      WheelRuns.RunAppends(s.table, TableOps(s, calls[0]), AllTableOps(r, calls[1..]));
    }
  }

  // ------------------------------------------------------------- single timers

  /** What has happened in t's life over a run. */
  function Past<T(==)>(s: World<T>, calls: seq<Call<T>>, t: T): (ops: seq<L.Op>)
    decreases |calls|
  {
    if calls == [] then [] else OwnOps(s, calls[0], t) + Past(Do(s, calls[0]), calls[1..], t)
  }

  lemma DoesLife<T>(s: World<T>, c: Call<T>, t: T)
    requires t in s.lives && Possible(s, c)
    ensures t in Do(s, c).lives && Do(s, c).lives[t] == Lived(s.lives[t], s.table.now, OwnOps(s, c, t))
  {
  }

  lemma {:induction false} DeadStays<T>(s: World<T>, calls: seq<Call<T>>, t: T)
    requires t in s.lives && !Alive(s, t) && AllPossible(s, calls)
    ensures Past(s, calls, t) == [] && t in Run(s, calls).lives && Run(s, calls).lives[t] == s.lives[t]
    decreases |calls|
  {
    if calls != [] {
      DoesLife(s, calls[0], t);
      DeadStays(Do(s, calls[0]), calls[1..], t);
    }
  }

  /** These ops lead a timer from l to m. */
  ghost predicate Leads(l: L.Life, now: nat, ops: seq<L.Op>, m: L.Life) {
    L.Sane(l, now) && L.Legal(l, now, ops) && m == L.Run(l, now, ops)
  }

  /** A life goes on as it would have from an earlier jiffy. */
  lemma LeadsLater(l: L.Life, c: nat, d: nat, ops: seq<L.Op>, m: L.Life)
    requires L.Sane(l, c) && c <= d && Leads(l, d, ops, m)
    ensures Leads(l, c, ops, m)
  {
  }

  lemma LeadsOn(l: L.Life, now: nat, op: L.Op, rest: seq<L.Op>, m: L.Life)
    requires L.Sane(l, now) && L.Enabled(l, now, op) && op.now == now && Counts(l, now)
    requires Leads(L.Step(l, op), now, rest, m)
    ensures Leads(l, now, [op] + rest, m)
  {
    assert ([op] + rest)[1..] == rest;
  }

  /** One call, and what follows it, in a live timer's life. */
  lemma LeadsThrough<T>(s: World<T>, c: Call<T>, t: T, rest: seq<L.Op>, m: L.Life)
    requires Inv(s) && Possible(s, c) && Alive(s, t)
    requires var r := Do(s, c);
             && t in r.lives && r.table.now >= s.table.now
             && (if Alive(r, t) then Leads(r.lives[t], r.table.now, rest, m) else rest == [] && m == r.lives[t])
    ensures Leads(s.lives[t], s.table.now, OwnOps(s, c, t) + rest, m)
  {
    var r, ops := Do(s, c), OwnOps(s, c, t);
    SaneHere(s, t);
    DoesLife(s, c, t);
    if ops == [] {
      assert ops + rest == rest;
      LeadsLater(s.lives[t], s.table.now, r.table.now, rest, m);
    } else {
      OwnStep(s, c, t);
      assert r.table.now == s.table.now && ops == [ops[0]];
      LeadsOn(s.lives[t], s.table.now, ops[0], rest, m);
    }
  }

  /** Over every run of the wheel the life of each of its timers is a run of TimerLife. */
  lemma {:induction false} OwnLife<T>(s: World<T>, calls: seq<Call<T>>, t: T)
    requires Inv(s) && AllPossible(s, calls) && Alive(s, t)
    ensures t in Run(s, calls).lives
    ensures Leads(s.lives[t], s.table.now, Past(s, calls, t), Run(s, calls).lives[t])
    decreases |calls|
  {
    if calls == [] {
      SaneHere(s, t);
    } else {
      var c, r := calls[0], Do(s, calls[0]);
      DoKeeps(s, c);
      DoesLife(s, c, t);
      if Alive(r, t) {
        OwnLife(r, calls[1..], t);
      } else {
        DeadStays(r, calls[1..], t);
      }
      LeadsThrough(s, c, t, Past(r, calls[1..], t), Run(s, calls).lives[t]);
    }
  }

  lemma SaneHere<T>(s: World<T>, t: T)
    requires Inv(s) && Alive(s, t)
    ensures L.Sane(s.lives[t], s.table.now)
  {
    assert t in s.table.waiting ==> WaitsWell(s, t);
    assert t in s.table.ready ==> ReadyWell(s, t);
  }

  /** The whole story of a timer, over every run of the wheel after it has been started:
      while it lives it is in one list, and its callbacks are those of a live timer; when
      it is dead it is in none, and its callbacks are those of a whole life, forced to
      an end exactly when it was killed. */
  lemma EveryTimer<T>(s: World<T>, t: T, life: L.Life, calls: seq<Call<T>>)
    requires Inv(s) && Possible(s, Start(t, life)) && AllPossible(Do(s, Start(t, life)), calls)
    ensures var w := Do(s, Start(t, life));
            var r, ops := Run(w, calls), Past(w, calls, t);
            && t in r.lives && Leads(life, s.table.now, ops, r.lives[t])
            && (t in r.table.waiting || t in r.table.ready <==> Alive(r, t))
            && !(t in r.table.waiting && t in r.table.ready)
            && (if Alive(r, t) then L.AliveShape(r.lives[t], life.count, life.expire)
                else L.EndedShape(r.lives[t], life.count, life.expire, !L.NoKill(ops)))
  {
    var w := Do(s, Start(t, life));
    DoKeeps(s, Start(t, life));
    OwnLife(w, calls, t);
    RunKeeps(w, calls);
    L.EveryLifeHasShape(life, life.count, life.expire, s.table.now, Past(w, calls, t));
    var r := Run(w, calls);
    assert t in r.table.waiting ==> WaitsWell(r, t);
    assert t in r.table.ready ==> ReadyWell(r, t);
  }

  // -------------------------------------------------------------------- polls

  /** Nobody kills, pauses or resumes t. */
  predicate LeavesAlone<T(==)>(calls: seq<Call<T>>, t: T) {
    forall i :: 0 <= i < |calls| ==>
      match calls[i]
      case Kill(u) => u != t
      case Pause(u) => u != t
      case Resume(u) => u != t
      case _ => true
  }

  lemma {:induction false} StaysQueued<T>(s: World<T>, calls: seq<Call<T>>, t: T)
    requires Inv(s) && AllPossible(s, calls) && t in s.table.ready && LeavesAlone(calls, t)
    ensures Past(s, calls, t) == [] ==> t in Run(s, calls).queue
    decreases |calls|
  {
    if calls != [] && OwnOps(s, calls[0], t) == [] {
      assert ReadyWell(s, t);
      DoKeeps(s, calls[0]);
      assert LeavesAlone(calls[1..], t);
      StaysQueued(Do(s, calls[0]), calls[1..], t);
    }
  }

  /** t waits, and is not held back. */
  predicate Waits<T>(s: World<T>, t: T) {
    t in s.table.waiting && t !in s.table.paused && t in s.lives && s.table.now <= s.lives[t].expire
  }

  lemma NotItsTurn<T>(s: World<T>, c: Call<T>, t: T)
    requires Inv(s) && Possible(s, c) && Waits(s, t) && LeavesAlone([c], t)
    ensures OwnOps(s, c, t) == [] && t in Do(s, c).lives && Do(s, c).lives[t] == s.lives[t]
    ensures s.table.waiting[t].due == s.lives[t].expire && t !in s.queue && s.table.now < L.MAX_JIFFIES
  {
    assert WaitsWell(s, t);
    assert [c][0] == c && t !in s.queue;
    DoesLife(s, c, t);
  }

  lemma WaitsOn<T>(s: World<T>, c: Call<T>, t: T)
    requires Inv(s) && Possible(s, c) && Waits(s, t) && LeavesAlone([c], t)
    ensures var r := Do(s, c);
            && OwnOps(s, c, t) == [] && t in r.lives && r.lives[t] == s.lives[t]
            && (if c.Tick? && s.lives[t].expire == s.table.now
                then t in r.table.ready && r.table.now == s.table.now + 1 else Waits(r, t))
  {
    hide Inv, OwnOps, Without, Lived;
    NotItsTurn(s, c, t);
    assert [c][0] == c;
    if c.Tick? && s.lives[t].expire == s.table.now {
      assert t in WheelRuns.Due(s.table);
    }
  }

  /** A waiting timer that is not paused and that nobody kills, pauses or resumes is left
      alone by the polling loop up to its expiry, and from the tick behind it on it is on
      the run list until it is polled. */
  lemma {:induction false} PolledOnlyWhenDue<T>(s: World<T>, calls: seq<Call<T>>, t: T)
    requires Inv(s) && AllPossible(s, calls) && LeavesAlone(calls, t) && Waits(s, t)
    ensures var r := Run(s, calls);
            if r.table.now <= s.lives[t].expire then Waits(r, t) && Past(s, calls, t) == []
            else Past(s, calls, t) == [] ==> t in r.queue
    decreases |calls|
  {
    if calls != [] {
      var c, r, rest := calls[0], Do(s, calls[0]), calls[1..];
      assert LeavesAlone([c], t) && LeavesAlone(rest, t);
      DoKeeps(s, c);
      WaitsOn(s, c, t);
      assert Past(s, calls, t) == [] + Past(r, rest, t) == Past(r, rest, t);
      if Waits(r, t) {
        PolledOnlyWhenDue(r, rest, t);
      } else {
        RunKeeps(r, rest);
        StaysQueued(r, rest, t);
      }
    }
  }

  function Polls<T>(does: seq<L.Reaction>): (calls: seq<Call<T>>) {
    seq(|does|, i requires 0 <= i < |does| => Poll(does[i]))
  }

  lemma PollsRest<T>(does: seq<L.Reaction>)
    requires does != []
    ensures Polls<T>(does)[0] == Poll(does[0]) && Polls<T>(does)[1..] == Polls<T>(does[1..])
  {
  }

  lemma PollsStep<T>(s: World<T>, does: seq<L.Reaction>)
    requires does != []
    ensures Run(s, Polls(does)) == Run(Do(s, Poll(does[0])), Polls(does[1..]))
  {
    PollsRest<T>(does);
  }

  lemma PollsAppend<T>(does: seq<L.Reaction>, d: L.Reaction)
    ensures Polls<T>(does + [d]) == Polls<T>(does) + [Poll(d)]
  {
  }

  lemma NoPolls<T>(s: World<T>)
    ensures Run(s, Polls([])) == s
  {
    assert Polls<T>([]) == [];
  }

  lemma {:induction false} PollsPossible<T>(s: World<T>, does: seq<L.Reaction>)
    ensures AllPossible(s, Polls(does))
    decreases |does|
  {
    if does != [] {
      PollsRest<T>(does);
      PollsPossible(Do(s, Poll(does[0])), does[1..]);
    }
  }

  lemma {:induction false} PossibleAppends<T>(s: World<T>, calls: seq<Call<T>>, more: seq<Call<T>>)
    requires AllPossible(s, calls) && AllPossible(Run(s, calls), more)
    ensures AllPossible(s, calls + more)
    decreases |calls|
  {
    if calls == [] {
      assert calls + more == more;
    } else {
      assert (calls + more)[1..] == calls[1..] + more;
      PossibleAppends(Do(s, calls[0]), calls[1..], more);
    }
  }

  lemma PollsFollow<T>(s: World<T>, ticks: seq<Call<T>>, does: seq<L.Reaction>)
    requires AllPossible(s, ticks)
    ensures AllPossible(s, ticks + Polls(does))
    ensures Inv(s) ==> Inv(Run(s, ticks + Polls(does)))
  {
    hide Inv;
    PollsPossible(Run(s, ticks), does);
    PossibleAppends(s, ticks, Polls(does));
    if Inv(s) {
      RunKeeps(s, ticks + Polls(does));
    }
  }

  /** One poll: the head of the run list, and nobody else, has its callback. */
  lemma PollsHead<T>(s: World<T>, does: L.Reaction)
    requires Inv(s) && s.queue != []
    ensures var t, r := s.queue[0], Do(s, Poll(does));
            && Alive(s, t) && Inv(r) && r.table.now == s.table.now
            && r.lives == s.lives[t := Lived(s.lives[t], s.table.now, [PollOp(s.lives[t], s.table.now, does)])]
            && r.queue == s.queue[1..] + (if Alive(r, t) && r.lives[t].expire <= r.table.now then [t] else [])
  {
    var t := s.queue[0];
    assert ReadyWell(s, t);
    OwnStep(s, Poll(does), t);
    DoKeeps(s, Poll(does));
    WithoutHead(s.queue);
    hide Inv, ReadyWell, Lived, Without, WheelRuns.Step;
  }

  // ------------------------------------- what a callback does to other timers

  /** While the callback of the head runs, it is in no list. */
  function Popped<T(==)>(s: World<T>): (r: World<T>)
    requires s.queue != []
  {
    Take(s, s.queue[0])
  }

  /** The rest of the poll of t. */
  function Finish<T(==)>(s: World<T>, t: T, does: L.Reaction): (r: World<T>)
    requires t in s.lives
  {
    var m := s.(lives := s.lives[t := AfterPoll(s.lives[t], s.table.now, does)]);
    if Alive(m, t) then Put(m, t) else m
  }

  /** A call that a callback of t makes on another timer, or for a new one. */
  predicate OnOther<T(==)>(c: Call<T>, t: T) {
    match c
    case Start(u, _) => u != t
    case Kill(u) => u != t
    case Pause(u) => u != t
    case Resume(u) => u != t
    case Tick(_) => false
    case Poll(_) => false
  }

  predicate OnOthers<T(==)>(calls: seq<Call<T>>, t: T) {
    forall i :: 0 <= i < |calls| ==> OnOther(calls[i], t)
  }

  lemma TakesCommute<T>(s: World<T>, t: T, u: T)
    ensures Take(Take(s, u), t) == Take(Take(s, t), u)
  {
    WithoutBoth(s.queue, t, u);
  }

  lemma PutCommutes<T>(s: World<T>, t: T, u: T)
    requires u in s.lives && u != t
    ensures Take(Put(s, u), t) == Put(Take(s, t), u)
  {
    hide L.Step;
    WithoutJoin(s.queue, [u], t);
    assert [u][1..] == [];
  }

  lemma HeadStays<T>(queue: seq<T>, u: T)
    requires queue != [] && queue[0] != u
    ensures Without(queue, u) != [] && Without(queue, u)[0] == queue[0]
  {
  }

  /** A call on another timer comes to the same before t is popped and after. */
  lemma OneCommutes<T>(s: World<T>, c: Call<T>, t: T)
    requires s.queue != [] && s.queue[0] == t && t in s.lives && OnOther(c, t)
    ensures var r := Do(s, c);
            && r.queue != [] && r.queue[0] == t && t in r.lives && r.lives[t] == s.lives[t]
            && r.table.now == s.table.now && Do(Popped(s), c) == Popped(r)
  {
    hide Without;
    match c
    case Start(u, life) => PutCommutes(s.(lives := s.lives[u := life]), t, u);
    case Kill(u) =>
      HeadStays(s.queue, u);
      if Alive(s, u) {
        TakesCommute(Change(s, c, u), t, u);
      }
    case Pause(u) =>
    case Resume(u) =>
      HeadStays(s.queue, u);
      if Alive(s, u) && s.lives[u].stat.Paused? {
        var m := Change(s, c, u);
        TakesCommute(m, t, u);
        PutCommutes(Take(m, u), t, u);
      }
  }

  lemma {:induction false} AllCommute<T>(s: World<T>, calls: seq<Call<T>>, t: T)
    requires s.queue != [] && s.queue[0] == t && t in s.lives && OnOthers(calls, t)
    ensures var r := Run(s, calls);
            && r.queue != [] && r.queue[0] == t && t in r.lives && r.lives[t] == s.lives[t]
            && r.table.now == s.table.now && Run(Popped(s), calls) == Popped(r)
    decreases |calls|
  {
    if calls != [] {
      OneCommutes(s, calls[0], t);
      AllCommute(Do(s, calls[0]), calls[1..], t);
    }
  }

  /** What the callback of the head does to other timers while it runs comes to the same
      as if it had been done just before the poll. Whether the lists survive it is another
      matter: the head behind the one polled has a stale back link (SLTimerMgr.KillTimer). */
  lemma AskedInCallback<T>(s: World<T>, calls: seq<Call<T>>, does: L.Reaction)
    requires s.queue != [] && Alive(s, s.queue[0]) && OnOthers(calls, s.queue[0])
    ensures s.queue[0] in Run(Popped(s), calls).lives
    ensures Finish(Run(Popped(s), calls), s.queue[0], does) == Run(s, calls + [Poll(does)])
  {
    var t, r := s.queue[0], Run(s, calls);
    AllCommute(s, calls, t);
    RunSnoc(s, calls, Poll(does));
    FinishIsPoll(r, does);
  }

  lemma FinishIs<T>(s: World<T>, does: L.Reaction, t: T, r: World<T>)
    requires t in s.lives && Counts(s.lives[t], s.table.now)
    requires r.lives == s.lives[t := L.Step(s.lives[t], L.Poll(s.table.now, does))]
    requires r.table == if Alive(r, t)
                        then WheelRuns.Step(s.table, WheelRuns.Arm(t, r.lives[t].expire, r.lives[t].stat.Paused?))
                        else s.table
    requires r.queue == s.queue + (if Alive(r, t) && r.lives[t].expire <= s.table.now then [t] else [])
    ensures r == Finish(s, t, does)
  {
    HeardOnly(s.lives[t], s.table.now, does);
  }

  lemma FinishIsPoll<T>(s: World<T>, does: L.Reaction)
    requires s.queue != [] && Alive(s, s.queue[0])
    ensures Do(s, Poll(does)) == Finish(Popped(s), s.queue[0], does)
  {
  }

  /** Of the timers on the run list the first ones have each been polled once, and
      nobody else has. */
  ghost predicate InTurn<T>(queue: seq<T>, before: map<T, L.Life>, now: nat, does: seq<L.Reaction>,
                            rest: seq<T>, after: map<T, L.Life>) {
    && |does| <= |queue| && queue[|does|..] <= rest && after.Keys == before.Keys
    && (forall i :: 0 <= i < |does| ==>
          queue[i] in before && queue[i] in after && after[queue[i]] == AfterPoll(before[queue[i]], now, does[i]))
    && (forall t :: t in before && t !in queue[..|does|] ==> after[t] == before[t])
  }

  lemma TurnsOn<T>(queue: seq<T>, before: map<T, L.Life>, now: nat, does: seq<L.Reaction>,
                   next: seq<T>, mid: map<T, L.Life>, rest: seq<T>, after: map<T, L.Life>)
    requires NoDup(queue) && 0 < |does| <= |queue| && queue[0] in before
    requires mid == before[queue[0] := AfterPoll(before[queue[0]], now, does[0])] && queue[1..] <= next
    requires next == queue[1..] || next == queue[1..] + [queue[0]]
    requires InTurn(next, mid, now, does[1..], rest, after)
    ensures InTurn(queue, before, now, does, rest, after)
  {
    hide AfterPoll;
    var k, t := |does| - 1, queue[0];
    assert next[..k] == queue[1..|does|] && queue[..|does|] == [t] + queue[1..|does|];
    assert queue[|does|..] <= next[k..];
    assert t !in next[..k];
    forall i | 0 <= i < |does|
      ensures queue[i] in before && queue[i] in after && after[queue[i]] == AfterPoll(before[queue[i]], now, does[i])
    {
      if i > 0 {
        assert next[i - 1] == queue[i] != t && does[1..][i - 1] == does[i];
      }
    }
  }

  /** Timers on the run list are polled in turn: with as many rounds as there are, or
      fewer, the first ones have each been polled exactly once and nobody else has. */
  lemma {:induction false} PolledInTurn<T>(s: World<T>, does: seq<L.Reaction>)
    requires Inv(s) && |does| <= |s.queue|
    ensures var r := Run(s, Polls(does));
            Inv(r) && InTurn(s.queue, s.lives, s.table.now, does, r.queue, r.lives)
    decreases |does|
  {
    if does == [] {
      assert Polls<T>(does) == [];
    } else {
      var m := Do(s, Poll(does[0]));
      PollsHead(s, does[0]);
      PollsRest<T>(does);
      PolledInTurn(m, does[1..]);
      var r := Run(s, Polls(does));
      TurnsOn(s.queue, s.lives, s.table.now, does, m.queue, m.lives, r.queue, r.lives);
    }
  }

  // ------------------------------------------------ how long there is to poll

  /** The timer has an interval, or its count comes to an end. */
  predicate Settles(l: L.Life) {
    l.interval > 0 || l.count >= 0
  }

  /** How many polls a timer can still ask for before it is ahead of the counter or
      dead: with an interval no more than it is late, and one; otherwise its onStart and
      what is left of its count. */
  function Need(l: L.Life, now: nat): (n: nat) {
    if l.expire > now then 0
    else if l.interval > 0 then now - l.expire + 1
    else (if l.delaying then 1 else 0) + (if l.count > 0 then l.count else 1)
  }

  lemma NeedShrinks(l: L.Life, now: nat, does: L.Reaction)
    requires L.Sane(l, now) && !l.stat.Destroy? && l.expire <= now && Settles(l)
    ensures var m := AfterPoll(l, now, does);
            m.stat.Destroy? || (Settles(m) && Need(m, now) < Need(l, now) && m.interval == l.interval)
  {
    L.RecreatedBounds(l.expire, l.interval, now);
  }

  /** A timer without interval that goes on for ever stays late, unless its callback
      kills it. */
  lemma NeverAhead(l: L.Life, now: nat, does: L.Reaction)
    requires L.Sane(l, now) && !l.stat.Destroy? && l.expire <= now && !Settles(l) && !does.KillsItself?
    ensures var m := AfterPoll(l, now, does);
            !m.stat.Destroy? && !Settles(m) && m.expire <= now && L.Sane(m, now)
  {
    L.RecreatedBounds(l.expire, l.interval, now);
    L.StepStaysSane(l, now, PollOp(l, now, does));
  }

  lemma QueueLives<T>(s: World<T>, t: T)
    requires Inv(s) && t in s.queue
    ensures Alive(s, t) && s.lives[t].expire <= s.table.now && L.Sane(s.lives[t], s.table.now)
  {
    assert ReadyWell(s, t);
  }

  /** Once off the run list a timer is not put back there by polls. */
  lemma {:induction false} StaysOff<T>(s: World<T>, does: seq<L.Reaction>, t: T)
    requires Inv(s) && t !in s.queue
    ensures t !in Run(s, Polls(does)).queue
    decreases |does|
  {
    if does == [] {
      assert Polls<T>(does) == [];
    } else {
      PollsRest<T>(does);
      if s.queue != [] {
        PollsHead(s, does[0]);
      }
      StaysOff(Do(s, Poll(does[0])), does[1..], t);
    }
  }

  /** One poll, seen from a timer that is not the head: it is one place further. */
  lemma MovesUp<T>(s: World<T>, does: L.Reaction, i: nat)
    requires Inv(s) && 0 < i < |s.queue|
    ensures var r := Do(s, Poll(does));
            && Inv(r) && r.table.now == s.table.now && i - 1 < |r.queue| <= |s.queue| && r.queue[i - 1] == s.queue[i]
            && s.queue[i] in s.lives && s.queue[i] in r.lives && r.lives[s.queue[i]] == s.lives[s.queue[i]]
  {
    PollsHead(s, does);
    QueueLives(s, s.queue[i]);
    assert s.queue[i] != s.queue[0];
  }

  /** One poll, seen from a head that settles: it is off the run list, or at its end and
      nearer to being off. */
  lemma HeadSettles<T>(s: World<T>, does: L.Reaction)
    requires Inv(s) && s.queue != [] && s.queue[0] in s.lives && Settles(s.lives[s.queue[0]])
    ensures var t, r := s.queue[0], Do(s, Poll(does));
            && Inv(r) && r.table.now == s.table.now
            && (t in r.queue ==>
                  && |r.queue| == |s.queue| && r.queue[|r.queue| - 1] == t && t in r.lives
                  && Settles(r.lives[t]) && 0 < Need(r.lives[t], r.table.now) < Need(s.lives[t], s.table.now))
  {
    var t, r := s.queue[0], Do(s, Poll(does));
    PollsHead(s, does);
    QueueLives(s, t);
    NeedShrinks(s.lives[t], s.table.now, does);
    if t in r.queue {
      QueueLives(r, t);
    }
  }

  /** As many rounds as it takes a run list of that width to come round so often. */
  function Rounds(width: nat, times: nat): (n: nat) {
    if times == 0 then 0 else Rounds(width, times - 1) + width
  }

  /** A ready timer that settles is off the run list after finitely many rounds, whoever
      else is on it and whatever the callbacks do to their own timers. */
  lemma {:induction false} OffAfter<T>(s: World<T>, does: seq<L.Reaction>, i: nat, width: nat, times: nat)
    requires Inv(s) && i < |s.queue| <= width && s.queue[i] in s.lives && Settles(s.lives[s.queue[i]])
    requires Need(s.lives[s.queue[i]], s.table.now) <= times + 1 && |does| > i + Rounds(width, times)
    ensures s.queue[i] !in Run(s, Polls(does)).queue
    decreases |does|
  {
    hide Inv, Do, Run, Polls, Need, Settles;
    var t, r := s.queue[i], Do(s, Poll(does[0]));
    PollsStep(s, does);
    if i > 0 {
      MovesUp(s, does[0], i);
      OffAfter(r, does[1..], i - 1, width, times);
    } else {
      HeadSettles(s, does[0]);
      if t in r.queue {
        OffAfter(r, does[1..], |r.queue| - 1, width, times - 1);
      } else {
        StaysOff(r, does[1..], t);
      }
    }
  }

  /** Any other ready timer is still on the run list after any number of rounds in which
      no callback kills its timer. */
  lemma {:induction false} NeverOff<T>(s: World<T>, does: seq<L.Reaction>, t: T)
    requires Inv(s) && t in s.queue && t in s.lives && !Settles(s.lives[t])
    requires forall k :: 0 <= k < |does| ==> !does[k].KillsItself?
    ensures t in Run(s, Polls(does)).queue
    decreases |does|
  {
    if does == [] {
      assert Polls<T>(does) == [];
    } else {
      var r := Do(s, Poll(does[0]));
      PollsRest<T>(does);
      PollsHead(s, does[0]);
      QueueLives(s, t);
      hide Inv, Do, Settles, L.Sane;
      if s.queue[0] == t {
        NeverAhead(s.lives[t], s.table.now, does[0]);
      }
      NeverOff(r, does[1..], t);
    }
  }

  /** So many rounds of polling get t off the run list, whatever the callbacks do to
      their own timers. */
  ghost predicate OffWithin<T>(s: World<T>, t: T, n: nat) {
    forall does: seq<L.Reaction> :: |does| >= n ==> t !in Run(s, Polls(does)).queue
  }

  /** A ready timer is off the run list after finitely many rounds exactly when it has an
      interval or its count comes to an end. */
  lemma OffIff<T>(s: World<T>, t: T)
    requires Inv(s) && t in s.queue
    ensures t in s.lives
    ensures (exists n: nat :: OffWithin(s, t, n)) <==> Settles(s.lives[t])
  {
    QueueLives(s, t);
    var i: nat :| i < |s.queue| && s.queue[i] == t;
    if Settles(s.lives[t]) {
      var times := Need(s.lives[t], s.table.now);
      var n := i + Rounds(|s.queue|, times) + 1;
      forall does: seq<L.Reaction> | |does| >= n
        ensures t !in Run(s, Polls(does)).queue
      {
        OffAfter(s, does, i, |s.queue|, times);
      }
      assert OffWithin(s, t, n);
    } else {
      forall n: nat
        ensures !OffWithin(s, t, n)
      {
        var does := seq(n, _ => L.Nothing);
        NeverOff(s, does, t);
        assert |does| >= n;
      }
    }
  }

  lemma {:induction false} AllOffWithin<T>(s: World<T>, k: nat) returns (n: nat)
    requires Inv(s) && k <= |s.queue|
    requires forall t :: t in s.queue ==> t in s.lives && Settles(s.lives[t])
    ensures forall i :: 0 <= i < k ==> OffWithin(s, s.queue[i], n)
  {
    if k == 0 {
      n := 0;
    } else {
      var m := AllOffWithin(s, k - 1);
      assert s.queue[k - 1] in s.queue;
      OffIff(s, s.queue[k - 1]);
      var own: nat :| OffWithin(s, s.queue[k - 1], own);
      n := m + own;
      forall i | 0 <= i < k
        ensures OffWithin(s, s.queue[i], n)
      {
        assert OffWithin(s, s.queue[i], if i < k - 1 then m else own);
      }
    }
  }

  /** So many rounds leave nobody to poll, whatever the callbacks do to their own
      timers. */
  ghost predicate EndsWithin<T>(s: World<T>, n: nat) {
    forall does: seq<L.Reaction> :: |does| >= n ==> Run(s, Polls(does)).queue == []
  }

  /** The polling loop runs out of timers by itself, however late they are, exactly when
      each of them has an interval or a count that comes to an end. */
  lemma PollingEndsIff<T>(s: World<T>)
    requires Inv(s)
    ensures forall t :: t in s.queue ==> t in s.lives
    ensures (exists n: nat :: EndsWithin(s, n)) <==> forall t :: t in s.queue ==> Settles(s.lives[t])
  {
    forall t | t in s.queue
      ensures t in s.lives
    {
      QueueLives(s, t);
    }
    if forall t :: t in s.queue ==> Settles(s.lives[t]) {
      var n := AllOffWithin(s, |s.queue|);
      forall does: seq<L.Reaction> | |does| >= n
        ensures Run(s, Polls(does)).queue == []
      {
        NobodyNew(s, does);
        forall i | 0 <= i < |s.queue|
          ensures s.queue[i] !in Run(s, Polls(does)).queue
        {
          assert OffWithin(s, s.queue[i], n);
        }
      }
      assert EndsWithin(s, n);
    } else {
      var t :| t in s.queue && !Settles(s.lives[t]);
      forall n: nat
        ensures !EndsWithin(s, n)
      {
        var does := seq(n, _ => L.Nothing);
        NeverOff(s, does, t);
        assert |does| >= n;
      }
    }
  }

  lemma NobodyNew<T>(s: World<T>, does: seq<L.Reaction>)
    requires Inv(s)
    ensures Run(s, Polls(does)).queue != [] ==>
              exists i :: 0 <= i < |s.queue| && s.queue[i] in Run(s, Polls(does)).queue
  {
    var r := Run(s, Polls(does));
    if r.queue != [] {
      if r.queue[0] !in s.queue {
        StaysOff(s, does, r.queue[0]);
        assert false;
      }
      var i :| 0 <= i < |s.queue| && s.queue[i] == r.queue[0];
    }
  }
}
