/** One timer: the poll state machine of CSLTimerBase, what it does to the
    user's callbacks over a whole life, and how a late timer catches up. */
module TimerLife {
  import opened WheelMath

  datatype TimerState = Recreate | Remove | Destroy | Paused

  /** What the user's object is told, and the return of the memory to its pool.
      Start and Time carry the jiffy counter at the call. */
  datatype Event = Start(at: nat) | Time(at: nat) | Terminate(forced: bool) | Release

  /** The abstract value of a timer. */
  datatype Life = Life(stat: TimerState, expire: nat, pause: nat, delaying: bool,
                       count: int, interval: nat, log: seq<Event>)

  // ---------------------------------------------------------------- arithmetic

  /** Unsigned 64-bit addition. */
  function Add64(a: nat, b: nat): (r: nat) {
    (a + b) % TWO_64
  }

  /** How late a timer is: the magnitude of expire - now read as a negative
      signed 64-bit number, or 0 when it is not negative. */
  function Lateness(expire: nat, now: nat): (late: nat)
    requires expire < TWO_64 && now < TWO_64
    ensures expire <= now < TWO_63 ==> late == now - expire
    ensures now < expire < now + TWO_63 ==> late == 0
  {
    var difference := (expire + TWO_64 - now) % TWO_64;
    if difference >= TWO_63 then TWO_64 - difference else 0
  }

  /** adjustExpireTime. */
  function Adjusted(expire: nat, interval: nat, now: nat): (r: nat)
    requires expire < TWO_64 && now < TWO_64
  {
    var late := Lateness(expire, now);
    if interval > 0 && late > interval then Add64(expire, late / interval) else expire
  }

  lemma ProductOrder(a: nat, b: nat, u: nat)
    ensures a <= b ==> a * u <= b * u
  {
    if a <= b {
      assert b * u == a * u + (b - a) * u;
    }
  }

  lemma QuotientShrinks(a: nat, b: nat)
    requires b > 0
    ensures a / b <= a
  {
    var q := a / b;
    assert q * b <= a;
    ProductOrder(1, b, q);
  }

  /** Adjusting a late timer moves it towards now and never past it; a timer
      that is not late is left alone. */
  lemma AdjustNeverPassesNow(expire: nat, interval: nat, now: nat)
    requires now < TWO_63 && expire < now + TWO_63
    ensures expire <= Adjusted(expire, interval, now)
    ensures expire <= now ==> Adjusted(expire, interval, now) <= now
    ensures now < expire ==> Adjusted(expire, interval, now) == expire
  {
    if expire <= now && interval > 0 {
      QuotientShrinks(now - expire, interval);
    }
  }

  lemma AddsQuotient(expire: nat, interval: nat, now: nat)
    requires expire <= now < TWO_63 && 0 < interval < now - expire
    ensures Adjusted(expire, interval, now) == expire + (now - expire) / interval
  {
    QuotientShrinks(now - expire, interval);
  }

  lemma Quotient(a: nat, b: nat)
    requires b > 0
    ensures a / b * b <= a < a / b * b + b
  {
    assert a == a / b * b + a % b;
  }

  lemma NotVeryLate(expire: nat, interval: nat, now: nat)
    requires now < TWO_63 && expire < now + TWO_63 && (interval == 0 || now <= expire + interval)
    ensures Adjusted(expire, interval, now) == expire
  {
  }

  /** By how much: as often as the interval goes into the lateness, if that is more than
      one interval. */
  lemma AdjustsBy(expire: nat, interval: nat, now: nat)
    requires expire <= now < TWO_63
    ensures var late, more := now - expire, Adjusted(expire, interval, now) - expire;
            if interval == 0 || late <= interval then more == 0
            else more * interval <= late < more * interval + interval
  {
    hide Adjusted;
    if interval == 0 || now - expire <= interval {
      NotVeryLate(expire, interval, now);
    } else {
      AddsQuotient(expire, interval, now);
      Quotient(now - expire, interval);
    }
  }

  /** reCreateTimer: the expiry a polled timer is put back with. */
  function Recreated(expire: nat, interval: nat, now: nat): (r: nat)
    requires expire < TWO_64 && now < TWO_64
  {
    Adjusted(Add64(expire, interval), interval, now)
  }

  lemma RecreatedBounds(expire: nat, interval: nat, now: nat)
    requires now < TWO_63 && interval < TWO_63 && expire <= now
    ensures expire + interval <= Recreated(expire, interval, now) <= now + interval
  {
    assert Add64(expire, interval) == expire + interval;
    AdjustNeverPassesNow(expire + interval, interval, now);
  }

  /** A timer polled no more than two intervals late is put back one interval on. */
  lemma RecreatedInTime(expire: nat, interval: nat, now: nat)
    requires expire <= now < TWO_63 && interval < TWO_63 && now <= expire + 2 * interval
    ensures Recreated(expire, interval, now) == expire + interval
  {
    hide Adjusted;
    assert Add64(expire, interval) == expire + interval;
    NotVeryLate(expire + interval, interval, now);
  }

  /** The expiry after a timer has been polled and put back up to n times with
      the jiffy counter standing still, as long as it is still late. */
  function ExpiryAfterPolls(expire: nat, interval: nat, now: nat, n: nat): (r: nat)
    requires now < TWO_63 && interval < TWO_63 && expire < TWO_64
    decreases n
  {
    if n == 0 || now < expire then expire
    else ExpiryAfterPolls(Recreated(expire, interval, now), interval, now, n - 1)
  }

  /** A late timer with a positive interval is off the run list after finitely
      many polls, at most one interval ahead of the jiffy counter. */
  lemma {:induction false} LateTimerCatchesUp(expire: nat, interval: nat, now: nat, polls: nat)
    requires now < TWO_63 && 0 < interval < TWO_63 && expire <= now
    requires now - expire < polls
    ensures now < ExpiryAfterPolls(expire, interval, now, polls) <= now + interval
    decreases polls
  {
    var next := Recreated(expire, interval, now);
    RecreatedBounds(expire, interval, now);
    if next <= now {
      LateTimerCatchesUp(next, interval, now, polls - 1);
    }
  }

  // ------------------------------------------------------------ one callback

  /** onEnd: the user is told, and the memory goes back to the pool unless a
      callback of this timer is still on the stack. */
  function Ended(l: Life, forced: bool, inCallback: bool): (r: Life) {
    l.(stat := Destroy,
       log := l.log + [Terminate(forced)] + (if inCallback then [] else [Release]))
  }

  /** What a callback does to its own timer. */
  datatype Reaction = Nothing | KillsItself | PausesItself

  /** The user's callback has been called with event e. */
  function Called(l: Life, e: Event, does: Reaction): (r: Life)
    requires e.Start? || e.Time?
  {
    var told := l.(log := l.log + [e]);
    match does
    case Nothing => told
    case KillsItself => Ended(told, true, true)
    case PausesItself => told.(stat := Paused, pause := e.at)
  }

  /** pollTimer: the timer afterwards and the verdict handed to process. */
  function Polled(l: Life, now: nat, does: Reaction): (r: (Life, TimerState)) {
    if l.delaying then
      var m := Called(l, Start(now), does).(delaying := false);
      (m, if m.stat.Destroy? then Destroy else Recreate)
    else
      var m := if l.count != 0 then Called(l, Time(now), does) else l;
      if m.stat.Destroy? then (m, Destroy)
      else
        var n := if m.count > 0 then m.(count := m.count - 1) else m;
        (n, if n.count == 0 then Remove else Recreate)
  }

  // -------------------------------------------------------------- a whole life

  /** What can happen to a timer. Ticks that only move it between lists do not
      show here. */
  datatype Op =
    | Poll(now: nat, does: Reaction)
    | Kill(now: nat)
    | Pause(now: nat)
    | Resume(now: nat)

  function Step(l: Life, op: Op): (r: Life)
    requires op.now < TWO_63 && l.expire < TWO_64 && l.interval < TWO_63
  {
    match op
    case Poll(now, does) =>
      var (m, verdict) := Polled(l, now, does);
      (match verdict
       case Recreate => m.(expire := Recreated(m.expire, m.interval, now))
       case Remove => Ended(m, false, false)
       case Destroy => m.(log := m.log + [Release])
       case Paused => m)
    case Kill(_) => Ended(l, true, false)
    case Pause(now) => l.(stat := Paused, pause := now)
    case Resume(now) => l.(stat := Recreate, expire := (now + l.expire + TWO_64 - l.pause) % TWO_64)
  }

  /** The timer is alive and the wheel or the user may do this to it now: it is
      polled from the run list, so it has expired, and only a callback that is
      made can do anything to it; only a paused timer is resumed; the jiffy counter never
      goes back. */
  predicate Enabled(l: Life, clock: nat, op: Op) {
    && !l.stat.Destroy?
    && clock <= op.now < MAX_JIFFIES
    && (op.Poll? ==> l.expire <= op.now)
    && (op.Poll? && !op.does.Nothing? ==> l.delaying || l.count != 0)
    && (op.Resume? ==> l.stat.Paused?)
  }

  /** Bounds on the jiffy counter and on delays and intervals, which are signed
      64-bit milliseconds divided by 20. */
  const MAX_JIFFIES: nat := 0x4000_0000_0000_0000
  const MAX_SPAN: nat := 0x1000_0000_0000_0000

  /** Facts about a timer that hold between any two things done to it. */
  predicate Sane(l: Life, clock: nat) {
    && clock < MAX_JIFFIES
    && l.interval < MAX_SPAN
    && l.expire < 2 * clock + MAX_SPAN
    && (l.stat.Paused? ==>
          && l.pause <= clock
          && (l.expire < 2 * l.pause + MAX_SPAN || l.expire < clock + MAX_SPAN))
  }

  /** Every op is enabled when its turn comes. */
  predicate Legal(l: Life, clock: nat, ops: seq<Op>)
    requires Sane(l, clock)
    decreases |ops|
  {
    ops == [] ||
    (Enabled(l, clock, ops[0]) &&
     (StepStaysSane(l, clock, ops[0]);
      Legal(Step(l, ops[0]), ops[0].now, ops[1..])))
  }

  function Run(l: Life, clock: nat, ops: seq<Op>): (r: Life)
    requires Sane(l, clock) && Legal(l, clock, ops)
    decreases |ops|
  {
    if ops == [] then l
    else
      StepStaysSane(l, clock, ops[0]);
      Run(Step(l, ops[0]), ops[0].now, ops[1..])
  }

  lemma StepStaysSane(l: Life, clock: nat, op: Op)
    requires Sane(l, clock) && Enabled(l, clock, op)
    ensures Sane(Step(l, op), op.now)
    ensures Step(l, op).interval == l.interval
    ensures l.expire <= Step(l, op).expire
    ensures op.Poll? && !Step(l, op).stat.Destroy? ==> l.expire + l.interval <= Step(l, op).expire
  {
    match op
    case Poll(now, does) =>
      var (m, verdict) := Polled(l, now, does);
      assert m.expire == l.expire && m.interval == l.interval && (m.pause == l.pause || m.pause == now);
      RecreatedBounds(l.expire, l.interval, now);
    case Kill(_) =>
    case Pause(_) =>
    case Resume(now) =>
      assert Step(l, op).expire == now + l.expire - l.pause;
  }

  /** The expiry after n intervals, counted from the first expiry. */
  function Due(first: nat, interval: nat, n: nat): (d: nat)
    ensures first <= d
  {
    if n == 0 then first else Due(first, interval, n - 1) + interval
  }

  /** What was left of the time when the timer was paused is left when it is resumed. */
  lemma ResumeKeepsRest(l: Life, clock: nat, now: nat)
    requires Sane(l, clock) && Enabled(l, clock, Resume(now))
    ensures var r := Step(l, Resume(now));
            r.expire - now == l.expire - l.pause && r == l.(stat := Recreate, expire := r.expire)
  {
  }

  /** Polls, none of them more than two intervals late. */
  predicate InTime(l: Life, clock: nat, ops: seq<Op>)
    requires Sane(l, clock) && Legal(l, clock, ops)
    decreases |ops|
  {
    ops == [] ||
    (ops[0].Poll? && ops[0].now <= l.expire + 2 * l.interval &&
     (StepStaysSane(l, clock, ops[0]);
      InTime(Step(l, ops[0]), ops[0].now, ops[1..])))
  }

  lemma {:induction false} DueLater(first: nat, interval: nat, n: nat)
    ensures Due(first + interval, interval, n) == Due(first, interval, n + 1)
  {
    if n > 0 {
      DueLater(first, interval, n - 1);
    }
  }

  lemma {:induction false} DueIs(first: nat, interval: nat, n: nat)
    ensures Due(first, interval, n) == first + n * interval
  {
    if n > 0 {
      DueIs(first, interval, n - 1);
      assert n * interval == (n - 1) * interval + interval;
    }
  }

  lemma PutBackInTime(l: Life, clock: nat, op: Op)
    requires Sane(l, clock) && Enabled(l, clock, op) && op.Poll? && op.now <= l.expire + 2 * l.interval
    ensures !Step(l, op).stat.Destroy? ==> Step(l, op).expire == l.expire + l.interval
  {
    hide Recreated;
    RecreatedInTime(l.expire, l.interval, op.now);
  }

  /** A timer that is polled in time keeps its rhythm: its n-th expiry is n intervals
      after the first. */
  lemma {:induction false} KeepsRhythm(l: Life, clock: nat, ops: seq<Op>)
    requires Sane(l, clock) && Legal(l, clock, ops) && InTime(l, clock, ops)
    ensures var r := Run(l, clock, ops); !r.stat.Destroy? ==> r.expire == l.expire + |ops| * l.interval
    decreases |ops|
  {
    hide Step, Due;
    DueIs(l.expire, l.interval, |ops|);
    if ops == [] {
      return;
    }
    StepStaysSane(l, clock, ops[0]);
    PutBackInTime(l, clock, ops[0]);
    var r := Step(l, ops[0]);
    KeepsRhythm(r, ops[0].now, ops[1..]);
    if !r.stat.Destroy? {
      DueIs(r.expire, r.interval, |ops| - 1);
      DueLater(l.expire, l.interval, |ops| - 1);
    }
  }

  /** The log of a timer that has been polled `calls` times with effect: onStart
      first, then onTime, the j-th of them no earlier than j intervals after the
      first expiry. */
  predicate Callbacks(log: seq<Event>, first: nat, interval: nat) {
    && (log != [] ==> log[0].Start?)
    && (forall j :: 1 <= j < |log| ==> log[j].Time?)
    && (forall j :: 0 <= j < |log| ==> Due(first, interval, j) <= log[j].at)
  }

  /** What a live timer shows, given the count it was started with. */
  predicate AliveShape(l: Life, total: int, first: nat) {
    && !l.stat.Destroy?
    && Callbacks(l.log, first, l.interval)
    && (l.delaying <==> l.log == [])
    && Due(first, l.interval, |l.log|) <= l.expire
    && (l.log == [] ==> l.count == total)
    && (l.log != [] && total > 0 ==> l.count == total - (|l.log| - 1) > 0)
    && (total <= 0 ==> l.count == total)
    && (total == 0 ==> |l.log| <= 1)
  }

  /** What a dead timer shows: one onTerminate, then one release, and before
      them the callbacks of a live one. Without force there were exactly `total`
      of onTime. */
  predicate EndedShape(l: Life, total: int, first: nat, forced: bool) {
    var n := |l.log| - 2;
    && l.stat.Destroy?
    && n >= 0
    && l.log[n] == Terminate(forced)
    && l.log[n + 1] == Release
    && Callbacks(l.log[..n], first, l.interval)
    && (total >= 0 ==> n - 1 <= total)
    && (!forced ==> total >= 0 && n - 1 == total)
  }

  predicate Kills(op: Op) {
    op.Kill? || (op.Poll? && op.does.KillsItself?)
  }

  /** The poll is the one after which no callback is left to make. */
  predicate Finishes(l: Life, op: Op) {
    op.Poll? && !op.does.KillsItself? && !l.delaying && (l.count == 0 || l.count == 1)
  }

  /** The callbacks in the log once the op has been done. */
  function CallsAfter(l: Life, op: Op): (log: seq<Event>) {
    if !op.Poll? then l.log
    else if l.delaying then l.log + [Start(op.now)]
    else if l.count != 0 then l.log + [Time(op.now)]
    else l.log
  }

  lemma StepLog(l: Life, clock: nat, op: Op)
    requires Sane(l, clock) && Enabled(l, clock, op)
    ensures var m := Step(l, op);
            && (Kills(op) ==> m.log == CallsAfter(l, op) + [Terminate(true), Release])
            && (Finishes(l, op) ==> m.log == CallsAfter(l, op) + [Terminate(false), Release])
            && (!Kills(op) && !Finishes(l, op) ==> m.log == CallsAfter(l, op))
            && (m.stat.Destroy? <==> Kills(op) || Finishes(l, op))
  {
  }

  lemma CallsKeepTime(l: Life, total: int, first: nat, clock: nat, op: Op)
    requires Sane(l, clock) && Enabled(l, clock, op) && AliveShape(l, total, first)
    ensures Callbacks(CallsAfter(l, op), first, l.interval)
  {
    if op.Poll? && (l.delaying || l.count != 0) {
      CallbackExtends(l.log, first, l.interval, if l.delaying then Start(op.now) else Time(op.now));
    }
  }

  lemma LastStepShape(l: Life, total: int, first: nat, clock: nat, op: Op)
    requires Sane(l, clock) && Enabled(l, clock, op) && AliveShape(l, total, first)
    requires Kills(op) || Finishes(l, op)
    ensures EndedShape(Step(l, op), total, first, Kills(op))
  {
    hide Callbacks, Step, Due;
    StepStaysSane(l, clock, op);
    StepLog(l, clock, op);
    CallsKeepTime(l, total, first, clock, op);
    var calls := CallsAfter(l, op);
    assert Step(l, op).log[..|calls|] == calls;
  }

  lemma OtherStepShape(l: Life, total: int, first: nat, clock: nat, op: Op)
    requires Sane(l, clock) && Enabled(l, clock, op) && AliveShape(l, total, first)
    requires !Kills(op) && !Finishes(l, op)
    ensures AliveShape(Step(l, op), total, first)
    ensures |Step(l, op).log| == |l.log| + (if op.Poll? then 1 else 0)
  {
    StepStaysSane(l, clock, op);
    StepLog(l, clock, op);
    CallsKeepTime(l, total, first, clock, op);
  }

  lemma StepKeepsShape(l: Life, total: int, first: nat, clock: nat, op: Op)
    requires Sane(l, clock) && Enabled(l, clock, op) && AliveShape(l, total, first)
    ensures Kills(op) || Finishes(l, op) ==> EndedShape(Step(l, op), total, first, Kills(op))
    ensures !Kills(op) && !Finishes(l, op) ==>
              (AliveShape(Step(l, op), total, first)
               && |Step(l, op).log| == |l.log| + (if op.Poll? then 1 else 0))
    ensures Step(l, op).stat.Destroy? <==> Kills(op) || Finishes(l, op)
  {
    if Kills(op) || Finishes(l, op) {
      LastStepShape(l, total, first, clock, op);
    } else {
      OtherStepShape(l, total, first, clock, op);
    }
  }

  lemma CallbackExtends(log: seq<Event>, first: nat, interval: nat, e: Event)
    requires Callbacks(log, first, interval)
    requires if log == [] then e.Start? else e.Time?
    requires Due(first, interval, |log|) <= e.at
    ensures Callbacks(log + [e], first, interval)
  {
  }

  predicate PolledAt(ops: seq<Op>, now: nat) {
    exists i :: 0 <= i < |ops| && ops[i].Poll? && ops[i].now == now
  }

  /** The log only grows, and every callback is made at the jiffy of a poll. */
  lemma {:induction false} CalledWhenPolled(l: Life, clock: nat, ops: seq<Op>)
    requires Sane(l, clock) && Legal(l, clock, ops)
    ensures var r := Run(l, clock, ops);
            && l.log <= r.log
            && forall j {:trigger r.log[j]} :: |l.log| <= j < |r.log| && (r.log[j].Start? || r.log[j].Time?) ==>
                 PolledAt(ops, r.log[j].at)
    decreases |ops|
  {
    if ops != [] {
      hide Step, Sane, Enabled, Finishes;
      StepStaysSane(l, clock, ops[0]);
      StepLog(l, clock, ops[0]);
      CalledWhenPolled(Step(l, ops[0]), ops[0].now, ops[1..]);
      LaterPoll(ops);
    }
  }

  lemma LaterPoll(ops: seq<Op>)
    requires ops != []
    ensures forall now {:trigger PolledAt(ops, now)} :: PolledAt(ops[1..], now) ==> PolledAt(ops, now)
    ensures ops[0].Poll? ==> PolledAt(ops, ops[0].now)
  {
    forall now | PolledAt(ops[1..], now)
      ensures PolledAt(ops, now)
    {
      var i :| 0 <= i < |ops[1..]| && ops[1..][i].Poll? && ops[1..][i].now == now;
      assert ops[i + 1].Poll? && ops[i + 1].now == now;
    }
  }

  function Polls(ops: seq<Op>): (n: nat)
    ensures n <= |ops|
  {
    if ops == [] then 0 else (if ops[0].Poll? then 1 else 0) + Polls(ops[1..])
  }

  predicate NoKill(ops: seq<Op>) {
    forall i :: 0 <= i < |ops| ==> !Kills(ops[i])
  }

  /** Over every run: the timer is alive with a live timer's callbacks, or dead
      with one onTerminate and one release at the very end of its log, forced
      exactly when the run killed it. */
  lemma {:induction false} EveryLifeHasShape(l: Life, total: int, first: nat, clock: nat, ops: seq<Op>)
    requires Sane(l, clock) && AliveShape(l, total, first) && Legal(l, clock, ops)
    ensures var r := Run(l, clock, ops);
            if !r.stat.Destroy? then AliveShape(r, total, first)
            else EndedShape(r, total, first, !NoKill(ops))
    decreases |ops|
  {
    if ops != [] {
      hide AliveShape, EndedShape, Step, Sane, Enabled, Finishes;
      var op := ops[0];
      StepStaysSane(l, clock, op);
      StepKeepsShape(l, total, first, clock, op);
      var m := Step(l, op);
      if m.stat.Destroy? {
        assert ops[1..] == [];
      } else {
        EveryLifeHasShape(m, total, first, op.now, ops[1..]);
      }
    }
  }

  /** The number of polls a timer lives for when nobody kills it: onStart, each
      onTime, and for a zero count the poll that finds nothing left to do. */
  function PollsToEnd(total: nat): (n: nat) {
    if total == 0 then 2 else total + 1
  }

  /** A timer nobody kills: after n polls its log is onStart and n - 1 calls of
      onTime, and it ends, unforced, at exactly poll PollsToEnd(total). */
  lemma {:induction false} NaturalLife(l: Life, total: int, first: nat, clock: nat, ops: seq<Op>)
    requires Sane(l, clock) && AliveShape(l, total, first) && Legal(l, clock, ops) && NoKill(ops)
    ensures var r := Run(l, clock, ops);
            var polls := |l.log| + Polls(ops);
            && (r.stat.Destroy? <==> total >= 0 && polls == PollsToEnd(total))
            && (if r.stat.Destroy? then EndedShape(r, total, first, false)
                else AliveShape(r, total, first) && |r.log| == polls)
    decreases |ops|
  {
    if ops != [] {
      var op := ops[0];
      StepStaysSane(l, clock, op);
      StepKeepsShape(l, total, first, clock, op);
      var m := Step(l, op);
      if m.stat.Destroy? {
        assert ops[1..] == [];
      } else {
        NaturalLife(m, total, first, op.now, ops[1..]);
      }
    }
  }

  /** A killed timer: the killing op is the last of the run, its log ends in a
      forced onTerminate and one release, and nothing else in it is either. */
  lemma {:induction false} KilledLife(l: Life, total: int, first: nat, clock: nat, ops: seq<Op>, i: nat)
    requires Sane(l, clock) && AliveShape(l, total, first) && Legal(l, clock, ops)
    requires i < |ops| && Kills(ops[i]) && NoKill(ops[..i])
    ensures i == |ops| - 1
    ensures EndedShape(Run(l, clock, ops), total, first, true)
    decreases i
  {
    var op := ops[0];
    StepStaysSane(l, clock, op);
    StepKeepsShape(l, total, first, clock, op);
    var m := Step(l, op);
    if i > 0 {
      assert ops[..i][0] == op;
      assert ops[..i][1..] == ops[1..][..i - 1];
      assert !m.stat.Destroy?;
      KilledLife(m, total, first, op.now, ops[1..], i - 1);
    } else {
      assert ops[1..] == [];
    }
  }
}
