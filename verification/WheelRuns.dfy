/** The flat wheel: a plain table of who waits for which tick, and what it
    promises over every run. TimerWheel proves that the five gears behave like
    this table. */
module WheelRuns {
  import opened WheelMath

  /** Waiting timers with their entries, timers ready to be polled, and which of
      the waiting ones are paused. */
  datatype Flat<T> = Flat(now: nat, waiting: map<T, Entry>, ready: set<T>, paused: set<T>)

  datatype Op<T> =
    | Tick
    | Arm(t: T, expire: nat, held: bool)  // put in a list, paused or not, by start, resume or re-creation
    | Drop(t: T)                          // taken out of its list, by kill, resume or a poll
    | Pause(t: T)

  function Due<T>(f: Flat<T>): (due: set<T>) {
    set t | t in f.waiting && MovesAt(f.now, f.waiting[t], t in f.paused)
  }

  function Step<T>(f: Flat<T>, op: Op<T>): (r: Flat<T>) {
    match op
    case Tick => Flat(f.now + 1, f.waiting - Due(f), f.ready + Due(f), f.paused - Due(f))
    case Arm(t, expire, held) =>
      if expire <= f.now then f.(ready := f.ready + {t})
      else f.(waiting := f.waiting[t := EntryFor(f.now, expire)],
              paused := if held then f.paused + {t} else f.paused - {t})
    case Drop(t) => f.(waiting := f.waiting - {t}, ready := f.ready - {t}, paused := f.paused - {t})
    case Pause(t) => if t in f.waiting then f.(paused := f.paused + {t}) else f
  }

  function Run<T>(f: Flat<T>, ops: seq<Op<T>>): (r: Flat<T>)
    decreases |ops|
  {
    if ops == [] then f else Run(Step(f, ops[0]), ops[1..])
  }

  /** No op but ticks concerns t. */
  predicate LeftAlone<T(==)>(ops: seq<Op<T>>, t: T) {
    forall i :: 0 <= i < |ops| ==> ops[i].Tick? || ops[i].t != t
  }

  /** Over every run that leaves it alone, a waiting timer that is not paused is
      moved to the run list in exactly the tick it is due, whatever happens to
      the others. */
  lemma {:induction false} MovesInItsTick<T>(f: Flat<T>, t: T, ops: seq<Op<T>>)
    requires t in f.waiting && t !in f.ready && t !in f.paused && f.now <= f.waiting[t].due
    requires LeftAlone(ops, t)
    ensures var g := Run(f, ops);
            if g.now <= f.waiting[t].due then t in g.waiting && t !in g.ready
            else t !in g.waiting && t in g.ready
    decreases |ops|
  {
    if ops != [] {
      var g := Step(f, ops[0]);
      assert LeftAlone(ops[1..], t);
      if ops[0].Tick? && f.now == f.waiting[t].due {
        StaysReady(g, t, ops[1..]);
      } else {
        MovesInItsTick(g, t, ops[1..]);
      }
    }
  }

  lemma {:induction false} StaysReady<T>(f: Flat<T>, t: T, ops: seq<Op<T>>)
    requires t in f.ready && t !in f.waiting && LeftAlone(ops, t)
    ensures t in Run(f, ops).ready && t !in Run(f, ops).waiting && Run(f, ops).now >= f.now
    decreases |ops|
  {
    if ops != [] {
      assert LeftAlone(ops[1..], t);
      StaysReady(Step(f, ops[0]), t, ops[1..]);
    }
  }

  /** A timer armed for the future is moved in exactly the tick from its expiry
      to the next jiffy. */
  lemma FiresAtExpiry<T>(f: Flat<T>, t: T, expire: nat, ops: seq<Op<T>>)
    requires t !in f.waiting && t !in f.ready
    requires f.now < expire < f.now + TWO_63 && LeftAlone(ops, t)
    ensures var g := Run(Step(f, Arm(t, expire, false)), ops);
            if g.now <= expire then t in g.waiting && t !in g.ready
            else t !in g.waiting && t in g.ready
  {
    MovesInItsTick(Step(f, Arm(t, expire, false)), t, ops);
  }

  function Ticks<T>(n: nat): (ops: seq<Op<T>>) {
    seq(n, _ => Tick)
  }

  lemma {:induction false} TicksCount<T>(f: Flat<T>, n: nat)
    ensures Run(f, Ticks(n)).now == f.now + n
    decreases n
  {
    if n > 0 {
      assert Ticks<T>(n)[1..] == Ticks<T>(n - 1);
      TicksCount(Step(f, Tick), n - 1);
    }
  }

  /** At a distance of 2^63 or more that fails: the timer is on the run list after
      at most 256 ticks, long before it expires. */
  lemma FiresEarlyBeyondRange<T>(f: Flat<T>, t: T, expire: nat)
    requires t !in f.waiting && t !in f.ready
    requires f.now + TWO_63 <= expire
    ensures var g := Run(Step(f, Arm(t, expire, false)), Ticks(256));
            g.now < expire && t in g.ready
  {
    var armed := Step(f, Arm(t, expire, false));
    MovesInItsTick(armed, t, Ticks(256));
    TicksCount(armed, 256);
  }

  /** So an unpaused timer fires at its expiry in every run that leaves it alone
      exactly when its distance is below 2^63. */
  lemma FiresAtExpiryIff<T(!new)>(f: Flat<T>, t: T, expire: nat)
    requires t !in f.waiting && t !in f.ready && f.now < expire
    ensures expire - f.now < TWO_63 <==>
              forall ops: seq<Op<T>> :: LeftAlone(ops, t) ==>
                var g := Run(Step(f, Arm(t, expire, false)), ops);
                (t in g.ready <==> expire < g.now)
  {
    var armed := Step(f, Arm(t, expire, false));
    hide Step, Run;
    if expire - f.now < TWO_63 {
      forall ops: seq<Op<T>> | LeftAlone(ops, t)
        ensures t in Run(armed, ops).ready <==> expire < Run(armed, ops).now
      {
        FiresAtExpiry(f, t, expire, ops);
      }
    } else {
      FiresEarlyBeyondRange(f, t, expire);
      assert LeftAlone(Ticks<T>(256), t);
    }
  }

  /** A paused timer left alone is held for ever, unless it is due at a multiple
      of 256 and was not put straight into the low gear: then it is moved in its
      tick like any other. */
  lemma {:induction false} PausedIsHeldIff<T>(f: Flat<T>, t: T, ops: seq<Op<T>>)
    requires t in f.waiting && t !in f.ready && t in f.paused
    requires LeftAlone(ops, t)
    ensures var g := Run(f, ops);
            var e := f.waiting[t];
            t in g.ready <==> !e.direct && e.due % 256 == 0 && f.now <= e.due < g.now
    decreases |ops|
  {
    if ops != [] {
      var g := Step(f, ops[0]);
      assert LeftAlone(ops[1..], t);
      if t in g.ready {
        StaysReady(g, t, ops[1..]);
      } else {
        PausedIsHeldIff(g, t, ops[1..]);
        TimeGoesOn(g, ops[1..]);
      }
    }
  }

  lemma {:induction false} TimeGoesOn<T>(f: Flat<T>, ops: seq<Op<T>>)
    ensures f.now <= Run(f, ops).now
    decreases |ops|
  {
    if ops != [] {
      TimeGoesOn(Step(f, ops[0]), ops[1..]);
    }
  }

  lemma {:induction false} RunAppends<T>(f: Flat<T>, ops: seq<Op<T>>, more: seq<Op<T>>)
    ensures Run(f, ops + more) == Run(Run(f, ops), more)
    decreases |ops|
  {
    if ops == [] {
      assert ops + more == more;
    } else {
      assert (ops + more)[1..] == ops[1..] + more;
      RunAppends(Step(f, ops[0]), ops[1..], more);
    }
  }
}
