/** SLTimerGear and SLTimerMgr: the five gears, the cascade between them and the
    run list. */
module TimerWheel {
  import opened Sequences
  import opened WheelMath
  import opened WheelState
  import opened TimerLife
  import opened TimerBase
  import WheelRuns
  import WheelLives
  import opened WheelTimes

  class SLTimerGear {
    var slots: seq<seq<CSLTimerBase>>
    var nowSlot: nat
    const maxSlotNum: nat

    constructor (maxSlotNum: nat)
      ensures this.maxSlotNum == maxSlotNum && nowSlot == 0
      ensures slots == NoTimers(maxSlotNum)
    {
      this.slots, this.nowSlot, this.maxSlotNum := NoTimers(maxSlotNum), 0, maxSlotNum;
    }
  }

  function NoTimers(slots: nat): (s: seq<seq<CSLTimerBase>>) {
    seq(slots, _ => [])
  }

  ghost predicate FiveGears(gears: seq<SLTimerGear>, wheel: set<SLTimerGear>) {
    && |gears| == 5 && wheel == {gears[0], gears[1], gears[2], gears[3], gears[4]}
    && (forall i, j :: 0 <= i < j < 5 ==> gears[i] != gears[j])
    && (forall k :: 0 <= k < 5 ==> gears[k].maxSlotNum == Size(k))
  }

  ghost predicate AtStart(gears: seq<SLTimerGear>)
    reads gears
  {
    forall k :: 0 <= k < |gears| ==> gears[k].nowSlot == 0 && gears[k].slots == NoTimers(Size(k))
  }

  method MakeGears() returns (gears: seq<SLTimerGear>, ghost wheel: set<SLTimerGear>)
    ensures FiveGears(gears, wheel) && AtStart(gears) && fresh(wheel)
  {
    hide NoTimers;
    var g1 := new SLTimerGear(256);
    var g2 := new SLTimerGear(64);
    var g3 := new SLTimerGear(64);
    var g4 := new SLTimerGear(64);
    var g5 := new SLTimerGear(64);
    gears, wheel := [g1, g2, g3, g4, g5], {g1, g2, g3, g4, g5};
  }

  /** C++ division: truncates towards zero. */
  function TruncDiv(a: int, b: nat): (q: int)
    requires b > 0
  {
    if a >= 0 then a / b else -((-a) / b)
  }

  /** Conversion of a 64-bit number to int32. */
  function ToInt32(a: int): (r: int)
    ensures -0x8000_0000 <= a < 0x8000_0000 ==> r == a
    ensures -0x8000_0000 <= r < 0x8000_0000
  {
    var m := a % 0x1_0000_0000;
    if m < 0x8000_0000 then m else m - 0x1_0000_0000
  }

  /** The clock of the wheel before (now, timerTick) and after (n, m) it has made up for
      a gap. */
  lemma ClockLemma(first: int, last: int, now: nat, timerTick: int, n: nat, m: int, tick: int, gap: int)
    requires 0 <= timerTick <= 1 && last - first == 10 * (2 * now + timerTick) && gap < 0x8000_0000
    requires 0 <= m <= 1
    requires 2 * n + m == 2 * now + timerTick + (if TruncDiv(gap, 10) > 0 then TruncDiv(gap, 10) else 0)
    ensures last + TruncDiv(gap, 10) * 10 - first == 10 * (2 * n + m) <==> gap > -10
    ensures 0 <= gap == tick - last ==>
              n == (tick - first) / 20 && last + TruncDiv(gap, 10) * 10 <= tick < last + TruncDiv(gap, 10) * 10 + 10
    ensures n <= now + 0x8000_0000
  {
  }

  /** Readings of a clock that does not go back and is read at least every 24 days: what
      the 32-bit difference of two of them can hold, with what may be left of the last. */
  predicate GoesOn(readings: seq<int>) {
    && (forall i :: 0 < i < |readings| ==> 0 <= readings[i] - readings[i - 1] < 0x8000_0000 - 9)
    && (forall i :: 0 <= i < |readings| ==> readings[i] - readings[0] < TWO_63)
  }

  lemma Since(readings: seq<int>, i: nat)
    requires GoesOn(readings) && i < |readings|
    ensures readings[0] <= readings[i]
  {
    if i > 0 {
      Since(readings, i - 1);
    }
  }

  predicate IsInt64(a: int) {
    -0x8000_0000_0000_0000 <= a < 0x8000_0000_0000_0000
  }

  /** The delay and interval startTimer works with, in jiffies. */
  function DelayJiffies(delay: int): (j: int) {
    TruncDiv(if 0 < delay < 20 then 20 else delay, 20)
  }

  function IntervalJiffies(interval: int): (j: nat) {
    (if interval != 0 && interval < 20 then 20 else interval) / 20
  }

  /** The expiry of a timer started now. */
  function StartExpiry(now: nat, delay: int): (expire: nat)
    requires now < MAX_JIFFIES && IsInt64(delay)
  {
    (now + DelayJiffies(delay) + TWO_64) % TWO_64
  }

  /** A timer started with a delay waits. */
  lemma BecomesWaiting<T>(s: WheelLives.World<T>, r: WheelLives.World<T>, t: T, life: Life)
    requires WheelLives.Inv(s) && t !in s.lives && r == WheelLives.Do(s, WheelLives.Start(t, life))
    requires life.stat.Recreate? && life.delaying && life.log == []
    requires life.interval < MAX_SPAN && s.table.now < life.expire < s.table.now + MAX_SPAN
    ensures WheelLives.Inv(r) && WheelLives.Waits(r, t) && r.lives[t] == life && r.table.now == s.table.now
  {
    WheelLives.StartKeeps(s, t, life);
  }

  /** The counter is past the expiry when the time since the first call is. */
  lemma PastExpiry(time: int, expire: nat)
    ensures time / 20 <= expire <==> time < 20 * (expire + 1)
  {
  }

  lemma ResumeAdds(l: Life, now: nat)
    requires now < TWO_63 && l.expire < TWO_64 && l.interval < TWO_63 && l.pause <= now
    ensures var r := TimerLife.Step(l, TimerLife.Resume(now));
            r.stat.Recreate? && (now + l.expire - l.pause < TWO_64 ==> r.expire - now == l.expire - l.pause)
  {
  }

  lemma DelayIs(delay: int)
    requires IsInt64(delay)
    ensures var j := DelayJiffies(delay);
            && (delay >= 20 ==> delay - 20 < 20 * j <= delay)
            && (0 < delay < 20 ==> j == 1)
            && (-20 < delay <= 0 ==> j == 0)
            && (delay <= -20 ==> -delay - 20 < -20 * j <= -delay)
            && -0x800_0000_0000_0000 < j < 0x800_0000_0000_0000
  {
  }

  lemma IntervalIs(interval: int)
    requires IsInt64(interval)
    ensures var i := IntervalJiffies(interval);
            && (interval >= 20 ==> interval - 20 < 20 * i <= interval)
            && (interval < 20 && interval != 0 ==> i == 1)
            && (interval == 0 ==> i == 0)
            && i < 0x800_0000_0000_0000
  {
  }

  /** What the milliseconds of startTimer come to in jiffies of 20 ms. */
  lemma InJiffies(now: nat, delay: int, interval: int)
    requires now < MAX_JIFFIES && IsInt64(delay) && IsInt64(interval)
    ensures var e := StartExpiry(now, delay);
            && (delay >= 20 ==> delay - 20 < 20 * (e - now) <= delay)
            && (0 < delay < 20 ==> e == now + 1)
            && (-20 < delay <= 0 ==> e == now)
            && (delay <= -20 ==>
                  var early := (now - e) % TWO_64; 0 < early < TWO_63 && -delay - 20 < 20 * early <= -delay)
            && e < TWO_64
    ensures var i := IntervalJiffies(interval);
            && (interval >= 20 ==> interval - 20 < 20 * i <= interval)
            && (interval < 20 && interval != 0 ==> i == 1)
            && (interval == 0 ==> i == 0)
            && i < TWO_63
  {
    hide DelayJiffies, IntervalJiffies;
    DelayIs(delay);
    IntervalIs(interval);
  }

  /** A started timer is at the beginning of a life TimerLife speaks of, and its
      expiry is within the range in which the wheel is exact, unless the delay is
      negative: then it is polled at once, or it is beyond that range. */
  lemma StartedTimer(now: nat, delay: int, count: int, interval: int)
    requires now < MAX_JIFFIES && IsInt64(delay) && IsInt64(interval)
    ensures var l := Life(TimerState.Recreate, StartExpiry(now, delay), 0, true, count, IntervalJiffies(interval), []);
            if delay >= 0
            then Sane(l, now) && AliveShape(l, count, l.expire) && now <= l.expire < now + TWO_63
            else l.expire <= now || l.expire >= now + TWO_63
  {
  }

  /** Where the hand of a gear stands after it has passed `passed` slots. The low
      gear wraps at once, a high gear when it is next looked at. */
  function Hand(k: nat, passed: nat): (h: nat) {
    if k == 0 then passed % 256
    else if passed == 0 then 0
    else (passed - 1) % 64 + 1
  }

  ghost function TableOf<T>(now: nat, spots: map<T, Spot>, run: seq<T>, paused: set<T>): (f: WheelRuns.Flat<T>) {
    WheelRuns.Flat(now, map t | t in spots :: spots[t].entry, (set t | t in run), paused)
  }

  /** A tick of the gears, described by what moved, is a tick of the table. */
  lemma TableTicks<T>(now: nat, before: map<T, Spot>, after: map<T, Spot>, run: seq<T>, moved: seq<T>,
                      paused: set<T>, still: set<T>)
    requires Transfer(before, after, moved)
    requires paused <= before.Keys && still == paused * after.Keys
    requires forall t :: t in before ==> (t in moved <==> MovesAt(now, before[t].entry, t in paused))
    ensures TableOf(now + 1, after, run + moved, still)
         == WheelRuns.Step(TableOf(now, before, run, paused), WheelRuns.Tick)
  {
    var f := TableOf(now, before, run, paused);
    assert forall t :: t in WheelRuns.Due(f) <==> t in moved;
    assert still == paused - WheelRuns.Due(f);
  }

  lemma TableArms<T>(now: nat, spots: map<T, Spot>, run: seq<T>, paused: set<T>, t: T, expire: nat, held: bool,
                     after: map<T, Spot>, runAfter: seq<T>, pausedAfter: set<T>)
    requires t !in spots && paused <= spots.Keys
    requires if expire <= now then runAfter == run + [t] && after == spots && pausedAfter == paused
             else runAfter == run && pausedAfter == (if held then paused + {t} else paused)
                  && t in after && after == spots[t := after[t]] && after[t].entry == EntryFor(now, expire)
    ensures TableOf(now, after, runAfter, pausedAfter)
         == WheelRuns.Step(TableOf(now, spots, run, paused), WheelRuns.Arm(t, expire, held))
  {
  }

  lemma TableDrops<T>(now: nat, spots: map<T, Spot>, run: seq<T>, paused: set<T>, t: T)
    ensures TableOf(now, spots - {t}, Without(run, t), paused - {t})
         == WheelRuns.Step(TableOf(now, spots, run, paused), WheelRuns.Drop(t))
  {
  }

  lemma TablePauses<T>(now: nat, spots: map<T, Spot>, run: seq<T>, paused: set<T>, t: T)
    ensures TableOf(now, spots, run, if t in spots then paused + {t} else paused)
         == WheelRuns.Step(TableOf(now, spots, run, paused), WheelRuns.Pause(t))
  {
  }

  lemma HandAfter(k: nat, passed: nat)
    requires k > 0
    ensures Hand(k, passed + 1) == passed % 64 + 1
  {
  }

  class SLTimerMgr {
    const gears: seq<SLTimerGear>
    ghost const wheel: set<SLTimerGear>           // all gears
    var now: nat                                  // m_currTimeJiffies
    var timerTick: int
    var started: bool                             // process has been called
    var last: int                                 // the clock reading process has caught up with
    ghost var first: int                          // the reading of its first call
    var runList: seq<CSLTimerBase>
    ghost var headBack: CSLTimerBase?             // the _prev of the first run-list node
    ghost var intact: bool                        // the lists are still chained
    ghost var passed: seq<nat>                    // slots passed by each gear so far
    ghost var spots: map<CSLTimerBase, Spot>      // the waiting timers
    ghost var held: set<CSLTimerBase>             // those of them that are paused
    ghost var made: set<CSLTimerBase>             // all timers started so far
    ghost var polled: CSLTimerBase?               // the timer whose callback is running

    constructor ()
      ensures Valid() && Steady() && fresh(wheel)
      ensures now == 0 && !started && Table() == WheelRuns.Flat(0, map[], {}, {})
      ensures Rested() && World() == WheelLives.World(Table(), [], map[]) && WheelLives.Inv(World())
    {
      var made5;
      ghost var all;
      made5, all := MakeGears();
      gears, wheel := made5, all;
      now, timerTick, started, last, first := 0, 0, false, 0, 0;
      runList, headBack, intact := [], null, true;
      passed, spots, held, made, polled := [0, 0, 0, 0, 0], map[], {}, {}, null;
      new;
      hide FiveGears, AtStart, Valid, Table, World, Complete, WheelLives.Inv;
      EmptyIsValid();
      EmptyWorld();
    }

    lemma EmptyWorld()
      requires now == 0 && runList == [] && spots == map[] && held == {} && made == {}
      ensures Table() == WheelRuns.Flat(0, map[], {}, {})
      ensures Complete() && World() == WheelLives.World(Table(), [], map[]) && WheelLives.Inv(World())
    {
    }

    lemma EmptyIsValid()
      requires FiveGears(gears, wheel) && AtStart(gears)
      requires now == 0 && runList == [] && spots == map[] && held == {} && passed == [0, 0, 0, 0, 0] && intact
      ensures Valid()
    {
      assert NotAheadFrom(now, passed, 1) && Aligned(now, passed) && HandsFrom(0);
    }

    ghost predicate Built()
    {
      FiveGears(gears, wheel)
    }

    function Gear(k: nat): (g: SLTimerGear)
      requires Built() && k < 5
    {
      gears[k]
    }

    ghost function Slots(): (s: seq<seq<seq<CSLTimerBase>>>)
      requires Built()
      reads Gear(0)`slots, Gear(1)`slots, Gear(2)`slots, Gear(3)`slots, Gear(4)`slots
    {
      [gears[0].slots, gears[1].slots, gears[2].slots, gears[3].slots, gears[4].slots]
    }

    ghost predicate Linked()
      reads this`spots, this`passed, this`runList, wheel`slots
    {
      Built() && Sound(Slots(), spots, passed, runList)
    }

    ghost function Hands(): (h: seq<nat>)
      requires Built()
      reads Gear(0)`nowSlot, Gear(1)`nowSlot, Gear(2)`nowSlot, Gear(3)`nowSlot, Gear(4)`nowSlot
    {
      [gears[0].nowSlot, gears[1].nowSlot, gears[2].nowSlot, gears[3].nowSlot, gears[4].nowSlot]
    }

    /** A timer in a list is alive, has no callback running and has 64-bit times. */
    ghost predicate Healthy(t: CSLTimerBase)
      reads t
    {
      t.Idle() && t.stat != Destroy && t.expire < TWO_64 && t.interval < TWO_63
    }

    /** The timers themselves: each waiting timer has the expiry it is owed, and
        only a paused one may be overdue; a timer on the run list has expired,
        unless its distance was 2^63 or more. */
    ghost predicate Debts()
      reads this`now, this`runList, this`passed, this`spots, this`held, spots.Keys, runList
    {
      && |passed| == 5
      && held <= spots.Keys
      && (forall t {:trigger t in spots} :: t in spots ==> Owed(t))
      && (forall t {:trigger t in runList} :: t in runList ==> Ripe(t))
    }

    ghost predicate Owed(t: CSLTimerBase)
      requires t in spots && |passed| == 5
      reads this`spots, this`passed, this`held, t
    {
      && Healthy(t)
      && t.expire == spots[t].entry.expire
      && (t in held <==> t.stat == Paused)
      && (spots[t].entry.due < passed[0] ==> t in held)
    }

    ghost predicate Ripe(t: CSLTimerBase)
      reads this`now, t
    {
      Healthy(t) && (t.expire <= now || t.expire >= TWO_63)
    }

    ghost predicate HandsFrom(k: nat)
      requires Built()
      reads this`passed, wheel`nowSlot
    {
      |passed| == 5 && forall i :: k <= i < 5 ==> Hands()[i] == Hand(i, passed[i])
    }

    /** The invariant between ticks. */
    ghost predicate Valid()
      reads this`intact, this`now, this`runList, this`passed, this`spots, this`held, wheel, spots.Keys, runList
    {
      intact && InOrder()
    }

    /** The lists hold what they should. */
    ghost predicate InOrder()
      reads this`now, this`runList, this`passed, this`spots, this`held, wheel, spots.Keys, runList
    {
      && Linked() && Debts() && HandsFrom(0)
      && Aligned(now, passed) && NotAheadFrom(now, passed, 1)
    }

    /** Appends to one slot list. */
    method PushBack(p: Place, t: CSLTimerBase)
      requires Built() && Shape(Slots()) && OnWheel(p)
      modifies Gear(p.gear)`slots
      ensures Slots() == Put(old(Slots()), p, At(old(Slots()), p) + [t])
    {
      var g := Gear(p.gear);
      ghost var before := Slots();
      assert before[p.gear] == g.slots;
      g.slots := g.slots[p.slot := g.slots[p.slot] + [t]];
    }

    /** The abstract value: the flat table of WheelRuns. */
    ghost function Table(): (f: WheelRuns.Flat<CSLTimerBase>)
      reads this`now, this`runList, this`spots, this`held
    {
      TableOf(now, spots, runList, held)
    }

    /** moveToRunList: the node that becomes the head has a sound _prev. */
    method MoveToRunList(t: CSLTimerBase)
      modifies this`runList, this`headBack
      ensures runList == old(runList) + [t]
      ensures headBack == if old(runList) == [] then null else old(headBack)
    {
      if runList == [] {
        headBack := null;
      }
      runList := runList + [t];
    }

    ghost function Lives(): (m: map<CSLTimerBase, Life>)
      reads this`made, made
    {
      map t | t in made :: t.Value()
    }

    /** The wheel with its timers, as WheelLives has it. */
    ghost function World(): (s: WheelLives.World<CSLTimerBase>)
      reads this`now, this`runList, this`spots, this`held, this`made, made
    {
      WheelLives.World(Table(), runList, Lives())
    }

    /** Exactly the live timers are in a list, but for one whose callback is running. */
    ghost predicate Complete()
      reads this`runList, this`spots, this`polled, this`made, made
    {
      && (forall t :: t in spots ==> t in made)
      && (forall t :: t in runList ==> t in made)
      && (forall t :: t in made ==>
            (t.live <==> t.stat != Destroy) && (t.live ==> t in spots || t in runList || t == polled))
    }

    /** And no callback is running. */
    ghost predicate Rested()
      reads this`runList, this`spots, this`polled, this`made, made
    {
      Complete() && polled == null
    }

    twostate predicate OthersSame(t: CSLTimerBase)
      reads this`made, made
    {
      forall s :: s in old(made) && s in made && s != t ==> s.Value() == old(s.Value()) && s.live == old(s.live)
    }

    twostate lemma OnlyLife(t: CSLTimerBase)
      requires t in made && made == old(made) && OthersSame(t)
      ensures Lives() == old(Lives())[t := t.Value()]
    {
    }

    /** Something has been done to one timer, which may have left its list. */
    twostate lemma StaysComplete(t: CSLTimerBase)
      requires old(Complete()) && made == old(made) && polled == old(polled) && OthersSame(t) && t in made
      requires spots.Keys - {t} == old(spots).Keys - {t}
      requires forall s :: s in runList && s != t ==> s in old(runList)
      requires forall s :: s in old(runList) && s != t ==> s in runList
      requires (t.live <==> t.stat != Destroy) && (t.live ==> t in spots || t in runList || t == polled)
      ensures Complete()
    {
      forall s
        ensures s != t ==> (s in spots <==> s in old(spots))
      {
        assert s in spots.Keys - {t} <==> s in old(spots).Keys - {t};
      }
    }

    /** Gives a slot a new list, together with the ghost state that goes with it. */
    method Refill(p: Place, list: seq<CSLTimerBase>,
                  ghost newSpots: map<CSLTimerBase, Spot>, ghost newPassed: seq<nat>)
      requires Built() && Shape(Slots()) && OnWheel(p)
      requires Sound(Put(Slots(), p, list), newSpots, newPassed, runList)
      modifies this`spots, this`passed, Gear(p.gear)`slots
      ensures spots == newSpots && passed == newPassed && Linked()
    {
      var g := Gear(p.gear);
      ghost var before := Slots();
      assert before[p.gear] == g.slots;
      g.slots := g.slots[p.slot := list];
      assert Slots() == Put(before, p, list);
      spots, passed := newSpots, newPassed;
    }

    method Schedule(t: CSLTimerBase, ghost e: Entry)
      requires Linked() && Aligned(now, passed)
      requires t !in spots && t !in runList
      requires e.expire == t.expire && Fits(now, e)
      modifies this`runList, this`spots, this`headBack, wheel`slots
      ensures Linked()
      ensures Hands() == old(Hands())
      ensures if e.expire <= now then runList == old(runList) + [t] && spots == old(spots)
              else runList == old(runList)
                   && spots == old(spots)[t := Spot(e, FindTimerList(now, e.expire).place)]
    {
      var d := FindTimerList(now, t.expire);
      match d
      case RunList => MoveToRunList(t);
      case Slot(p) =>
        PushSound(Slots(), spots, passed, runList, now, t, e);
        spots := spots[t := Spot(e, p)];
        PushBack(p, t);
    }

    /** The loop of updateToLowGear over the timers it took from a slot: each is
        scheduled again, and those that expire now go to the run list. */
    method Reschedule(list: seq<CSLTimerBase>, ghost was: map<CSLTimerBase, Spot>)
      returns (ghost moved: seq<CSLTimerBase>)
      requires Linked() && Aligned(now, passed)
      requires InFlight(was, spots, list, [])
      requires forall t :: t in list ==> t !in runList
      requires Givable(now, was, list)
      requires forall t :: t in list ==> was[t].entry.expire == t.expire
      modifies this`runList, this`spots, this`headBack, wheel`slots
      ensures Linked()
      ensures Hands() == old(Hands())
      ensures HandedDown(now, was, spots, moved) && runList == old(runList) + moved
    {
      moved := [];
      var tmp := list;
      while tmp != []
        invariant Linked()
        invariant Hands() == old(Hands())
        invariant InFlight(was, spots, tmp, moved)
        invariant forall t :: t in tmp ==> t in list
        invariant runList == old(runList) + moved
        invariant forall t :: t in moved ==> was[t].entry.expire == now && !was[t].entry.direct
        decreases |tmp|
      {
        var t := tmp[0];
        assert t in tmp;
        PutBack(was, spots, tmp, moved, FindTimerList(now, t.expire));
        tmp := tmp[1..];
        Schedule(t, was[t].entry);
        if t.expire <= now {
          moved := moved + [t];
        }
      }
    }

    /** Takes the slot a high gear is about to pass. */
    method TakePassed(k: nat) returns (list: seq<CSLTimerBase>)
      requires Linked() && Aligned(now, passed) && 1 <= k < 5
      requires now == StartOf(k, passed[k])
      requires Gear(k).nowSlot == passed[k] % 64
      modifies this`spots, this`passed, Gear(k)`slots
      ensures Linked()
      ensures passed == old(passed)[k := old(passed)[k] + 1]
      ensures InFlight(old(spots), spots, list, [])
      ensures Givable(now, old(spots), list)
    {
      hide Linked, Sound, At, Put, Leaving, InFlight, Givable, Aligned, StartOf;
      SlotToPass(k);
      var p := Place(k, Gear(k).nowSlot);
      list := Gear(k).slots[p.slot];
      Refill(p, [], Leaving(spots, p, []), passed[k := passed[k] + 1]);
    }

    lemma SlotToPass(k: nat)
      requires Linked() && Aligned(now, passed) && 1 <= k < 5
      requires now == StartOf(k, passed[k])
      requires Gear(k).nowSlot == passed[k] % 64
      ensures Built() && |passed| == 5 && Shape(Slots()) && Gear(k).nowSlot < |Gear(k).slots|
      ensures var p := Place(k, Gear(k).nowSlot);
              && OnWheel(p) && Gear(k).slots[p.slot] == At(Slots(), p)
              && Sound(Put(Slots(), p, []), Leaving(spots, p, []), passed[k := passed[k] + 1], runList)
              && Givable(now, spots, At(Slots(), p))
              && InFlight(spots, Leaving(spots, p, []), At(Slots(), p), [])
    {
      hide InFlight, Givable, Leaving, AllTimely, StartOf;
      PassSlot(Slots(), spots, passed, runList, now, k);
    }

    /** Hands down the slot under the hand of gear k and moves the hand on. */
    method HandDown(k: nat) returns (ghost moved: seq<CSLTimerBase>)
      requires Linked() && Aligned(now, passed) && 1 <= k < 5
      requires now == StartOf(k, passed[k])
      requires Gear(k).nowSlot == passed[k] % 64
      requires forall t :: t in spots ==> t.expire == spots[t].entry.expire
      modifies this`runList, this`spots, this`passed, this`headBack, wheel`slots, wheel`nowSlot
      ensures Linked() && Aligned(now, passed)
      ensures passed == old(passed)[k := old(passed[k]) + 1] && now < StartOf(k, passed[k])
      ensures Hands() == old(Hands())[k := old(passed[k]) % 64 + 1]
      ensures HandedDown(now, old(spots), spots, moved) && runList == old(runList) + moved
    {
      hide HandedDown, Timely, Fits, Aligned;
      PassingKeepsAligned(now, passed, k);
      ghost var was := spots;
      var list := TakePassed(k);
      moved := Reschedule(list, was);
      Gear(k).nowSlot := Gear(k).nowSlot + 1;
    }

    /** The opening test of updateToLowGear and checkHighGear. */
    method WrapHand(k: nat)
      requires Built() && k < 5 && |passed| == 5
      requires Hands()[k] == Hand(k, passed[k])
      modifies Gear(k)`nowSlot
      ensures Gear(k).nowSlot == passed[k] % Size(k)
      ensures Hands() == old(Hands())[k := passed[k] % Size(k)]
    {
      assert Gear(k).nowSlot == Hands()[k];
      if Gear(k).nowSlot >= Gear(k).maxSlotNum {
        Gear(k).nowSlot := 0;
      }
    }

    /** updateToLowGear of gear k: first the gear above, if this one has come full
        circle, then the slot under the hand is handed down and passed. */
    method UpdateToLowGear(k: nat) returns (ghost moved: seq<CSLTimerBase>)
      requires Linked() && Aligned(now, passed) && 1 <= k < 5
      requires now == StartOf(k, passed[k])
      requires NotAheadFrom(now, passed, k + 1) && HandsFrom(k)
      requires forall t :: t in spots ==> t.expire == spots[t].entry.expire
      modifies this`runList, this`spots, this`passed, this`headBack, wheel`slots, wheel`nowSlot
      ensures Linked() && Aligned(now, passed)
      ensures PassedFrom(now, passed, k) && HandsFrom(k)
      ensures forall i :: 0 <= i < k ==> passed[i] == old(passed[i])
      ensures forall i :: 0 <= i < k ==> Hands()[i] == old(Hands()[i])
      ensures HandedDown(now, old(spots), spots, moved) && runList == old(runList) + moved
      decreases 5 - k, 1
    {
      hide Sound;
      moved := CarryUp(k);
      ghost var was, run := spots, runList;
      HandAfter(k, passed[k]);
      ghost var more := HandDown(k);
      HandedDownChain(now, old(spots), was, spots, moved, more);
      JoinAssociates(old(runList), moved, more);
      moved := moved + more;
    }

    /** The first half of updateToLowGear. */
    method CarryUp(k: nat) returns (ghost moved: seq<CSLTimerBase>)
      requires Linked() && Aligned(now, passed) && 1 <= k < 5
      requires now == StartOf(k, passed[k])
      requires NotAheadFrom(now, passed, k + 1) && HandsFrom(k)
      requires forall t :: t in spots ==> t.expire == spots[t].entry.expire
      modifies this`runList, this`spots, this`passed, this`headBack, wheel`slots, wheel`nowSlot
      ensures Linked() && Aligned(now, passed)
      ensures PassedFrom(now, passed, k + 1) && HandsFrom(k + 1)
      ensures Gear(k).nowSlot == passed[k] % 64
      ensures forall i :: 0 <= i <= k ==> passed[i] == old(passed[i])
      ensures forall i :: 0 <= i < k ==> Hands()[i] == old(Hands()[i])
      ensures HandedDown(now, old(spots), spots, moved) && runList == old(runList) + moved
      decreases 5 - k, 0
    {
      moved := [];
      WrapHand(k);
      if k < 4 {
        Carry(now, passed, k);
        if Gear(k).nowSlot == 0 {
          moved := UpdateToLowGear(k + 1);
        } else {
          NoFurtherCarry(now, passed, k + 1);
        }
      }
      assert Gear(k).nowSlot == Hands()[k];
    }

    /** Sorts the slot under the low hand: a paused timer stays, any other goes to
        the run list. */
    method Sift(list: seq<CSLTimerBase>, ghost paused: set<CSLTimerBase>)
      returns (kept: seq<CSLTimerBase>)
      requires forall t :: t in list ==> (t in paused <==> t.stat == Paused)
      modifies this`runList, this`headBack
      ensures kept == Kept(list, paused, |list|)
      ensures runList == old(runList) + Released(list, paused, |list|)
    {
      hide Kept, Released;
      kept := [];
      ghost var was, ready := runList, [];
      NothingSifted(list, paused);
      var i := 0;
      while i < |list|
        invariant 0 <= i <= |list|
        invariant kept == Kept(list, paused, i) && ready == Released(list, paused, i)
        invariant runList == was + ready
      {
        var t := list[i];
        assert t in list;
        OneSifted(list, paused, i);
        JoinAssociates(was, ready, [t]);
        if t.stat == Paused {
          kept := kept + [t];
        } else {
          MoveToRunList(t);
          ready := ready + [t];
        }
        i := i + 1;
      }
    }

    /** update of the low gear. */
    method DrainLow(ghost paused: set<CSLTimerBase>) returns (ghost moved: seq<CSLTimerBase>)
      requires Linked() && Gear(0).nowSlot == passed[0] % 256
      requires forall t :: t in spots ==> (t in paused <==> t.stat == Paused)
      modifies this`runList, this`spots, this`passed, this`headBack, wheel`slots, wheel`nowSlot
      ensures Linked()
      ensures passed == old(passed)[0 := old(passed[0]) + 1]
      ensures Hands() == old(Hands())[0 := Hand(0, passed[0])]
      ensures runList == old(runList) + moved
      ensures Transfer(old(spots), spots, moved)
      ensures var p := Place(0, old(passed[0]) % 256);
              && (forall t :: t in moved ==> old(spots)[t].place == p && t !in paused)
              && (forall t :: t in spots && old(spots)[t].place == p ==> t in paused)
    {
      hide Linked, Sound, At, Put, Leaving, Kept, Released, InFlight;
      SlotToDrain(paused);
      var p := Place(0, Gear(0).nowSlot);
      var list := Gear(0).slots[p.slot];
      moved := Released(list, paused, |list|);
      var kept := Sift(list, paused);
      Refill(p, kept, Leaving(spots, p, kept), passed[0 := passed[0] + 1]);
      AdvanceLowHand();
    }

    lemma SlotToDrain(paused: set<CSLTimerBase>)
      requires Linked() && Gear(0).nowSlot == passed[0] % 256
      requires forall t :: t in spots ==> (t in paused <==> t.stat == Paused)
      ensures Built() && |passed| == 5 && Shape(Slots()) && Gear(0).nowSlot < |Gear(0).slots|
      ensures forall t :: t in Gear(0).slots[Gear(0).nowSlot] ==> (t in paused <==> t.stat == Paused)
      ensures var p := Place(0, Gear(0).nowSlot);
              var list := Gear(0).slots[p.slot];
              var kept, released := Kept(list, paused, |list|), Released(list, paused, |list|);
              && OnWheel(p) && list == At(Slots(), p)
              && Sound(Put(Slots(), p, kept), Leaving(spots, p, kept), passed[0 := passed[0] + 1], runList + released)
              && Transfer(spots, Leaving(spots, p, kept), released)
              && (forall t :: t in released ==> spots[t].place == p && t !in paused)
              && (forall t :: t in Leaving(spots, p, kept) && spots[t].place == p ==> t in paused)
    {
      DrainSound(Slots(), spots, passed, runList, paused, Gear(0).nowSlot);
      assert Gear(0).slots[Gear(0).nowSlot] == At(Slots(), Place(0, Gear(0).nowSlot));
    }

    method AdvanceLowHand()
      requires Built() && |passed| == 5 && passed[0] > 0
      requires Gear(0).nowSlot == (passed[0] - 1) % 256
      modifies Gear(0)`nowSlot
      ensures Hands() == old(Hands())[0 := Hand(0, passed[0])]
    {
      var g := Gear(0);
      g.nowSlot := g.nowSlot + 1;
      if g.nowSlot == g.maxSlotNum {
        g.nowSlot := 0;
      }
    }

    /** checkHighGear of the low gear. */
    method CheckHighGear() returns (ghost moved: seq<CSLTimerBase>)
      requires Linked() && Aligned(now, passed) && NotAheadFrom(now, passed, 1) && HandsFrom(0)
      requires forall t :: t in spots ==> t.expire == spots[t].entry.expire
      modifies this`runList, this`spots, this`passed, this`headBack, wheel`slots, wheel`nowSlot
      ensures Linked() && Aligned(now, passed)
      ensures PassedFrom(now, passed, 1) && HandsFrom(1)
      ensures passed[0] == now && Gear(0).nowSlot == now % 256
      ensures HandedDown(now, old(spots), spots, moved) && runList == old(runList) + moved
      ensures moved != [] ==> now % 256 == 0
    {
      moved := [];
      WrapHand(0);
      Carry(now, passed, 0);
      if Gear(0).nowSlot == 0 {
        moved := UpdateToLowGear(1);
      } else {
        NoFurtherCarry(now, passed, 1);
      }
      assert Gear(0).nowSlot == Hands()[0];
    }

    /** The gears' part of a tick. */
    method Turn(ghost paused: set<CSLTimerBase>) returns (ghost moved: seq<CSLTimerBase>)
      requires Linked() && Aligned(now, passed) && NotAheadFrom(now, passed, 1) && HandsFrom(0)
      requires forall t :: t in spots ==> t.expire == spots[t].entry.expire
      requires forall t :: t in spots ==> (t in paused <==> t.stat == Paused)
      requires forall t :: t in spots && spots[t].entry.due < now ==> t in paused
      modifies this`now, this`runList, this`spots, this`passed, this`headBack, wheel`slots, wheel`nowSlot
      ensures Linked() && Aligned(now, passed) && NotAheadFrom(now, passed, 1) && HandsFrom(0)
      ensures now == old(now) + 1
      ensures runList == old(runList) + moved && Transfer(old(spots), spots, moved)
      ensures forall t :: t in old(spots) ==>
                (t in moved <==> MovesAt(old(now), old(spots)[t].entry, t in paused))
    {
      ghost var x := CheckHighGear();
      ghost var mid, between := spots, passed;
      TickKeepsAligned(now, passed);
      now := now + 1;
      ghost var y := DrainLow(paused);
      TickMoves(old(now), old(spots), mid, spots, old(passed), between, x, y, paused);
      JoinAssociates(old(runList), x, y);
      moved := x + y;
    }

    /** One tick. A timer moves to the run list exactly when MovesAt says so; the
        others wait on, and nothing is lost or duplicated. */
    method OnJiffiesUpdate() returns (ghost moved: seq<CSLTimerBase>)
      requires Valid()
      modifies this`now, this`runList, this`spots, this`held, this`passed, this`headBack
      modifies wheel`slots, wheel`nowSlot
      ensures Valid() && now == old(now) + 1
      ensures runList == old(runList) + moved && Transfer(old(spots), spots, moved)
      ensures Table() == WheelRuns.Step(old(Table()), WheelRuns.Tick)
      ensures NoDup(moved) && WheelLives.SameMembers(moved, WheelRuns.Due(old(Table())))
    {
      moved := Turn(held);
      held := held * spots.Keys;
      TableTicks(old(now), old(spots), spots, old(runList), moved, old(held), held);
      TickedOwed(moved);
    }

    twostate lemma TickedOwed(new moved: seq<CSLTimerBase>)
      requires old(Valid()) && now == old(now) + 1 && Aligned(now, passed)
      requires runList == old(runList) + moved && Transfer(old(spots), spots, moved) && held == old(held) * spots.Keys
      requires forall t :: t in old(spots) ==>
                 (t in moved <==> MovesAt(old(now), old(spots)[t].entry, t in old(held)))
      requires forall t :: t in old(spots) || t in old(runList) ==> unchanged(t)
      ensures Debts()
    {
      forall t | t in runList
        ensures Ripe(t)
      {
        if t in moved {
          assert old(Owed(t)) && Timely(old(passed), old(spots)[t].entry, old(spots)[t].place);
        } else {
          assert old(Ripe(t));
        }
      }
      forall t | t in spots
        ensures Owed(t)
      {
        assert old(Owed(t)) && t !in moved;
      }
    }

    /** schedule, from start, resume or reCreateTimer: between ticks. */
    method Arm(t: CSLTimerBase)
      requires Valid() && Healthy(t) && t !in spots && t !in runList
      modifies this`runList, this`spots, this`held, this`headBack, wheel`slots
      ensures Valid()
      ensures Table() == WheelRuns.Step(old(Table()), WheelRuns.Arm(t, t.expire, t.stat == Paused))
      ensures runList == (if t.expire <= now then old(runList) + [t] else old(runList))
      ensures spots.Keys == (if t.expire <= now then old(spots).Keys else old(spots).Keys + {t})
    {
      if t.expire <= now {
        ArmReady(t);
      } else {
        ArmWaiting(t, EntryFor(now, t.expire));
      }
      TableArms(now, old(spots), old(runList), old(held), t, t.expire, t.stat == Paused,
                spots, runList, held);
    }

    method ArmReady(t: CSLTimerBase)
      requires Valid() && Healthy(t) && t !in spots && t !in runList && t.expire <= now
      modifies this`runList, this`spots, this`headBack, wheel`slots
      ensures Valid()
      ensures runList == old(runList) + [t] && spots == old(spots)
    {
      hide Linked, Aligned, HandsFrom, NotAheadFrom;
      Schedule(t, Entry(t.expire, t.expire, true));
    }

    lemma PassedIsNow()
      requires |passed| == 5 && Aligned(now, passed)
      ensures passed[0] == now
    {
    }

    method ArmWaiting(t: CSLTimerBase, ghost e: Entry)
      requires Valid() && Healthy(t) && t !in spots && t !in runList
      requires now < t.expire == e.expire && now <= e.due && Fits(now, e)
      modifies this`runList, this`spots, this`held, this`headBack, wheel`slots
      ensures Valid()
      ensures runList == old(runList)
      ensures t in spots && spots == old(spots)[t := spots[t]] && spots[t].entry == e
      ensures held == (if t.stat == Paused then old(held) + {t} else old(held))
    {
      hide Linked, Aligned, HandsFrom, NotAheadFrom, Fits;
      PassedIsNow();
      held := if t.stat == Paused then held + {t} else held;
      Schedule(t, e);
      ArmedOwed(t);
    }

    twostate lemma ArmedOwed(t: CSLTimerBase)
      requires old(Debts()) && t !in old(spots) && Healthy(t)
      requires now == old(now) && passed == old(passed) && runList == old(runList)
      requires t in spots && spots == old(spots)[t := spots[t]]
      requires spots[t].entry.expire == t.expire && passed[0] <= spots[t].entry.due
      requires held == (if t.stat == Paused then old(held) + {t} else old(held))
      requires forall s :: s in old(spots) || s in runList ==>
                 && s.stat == old(s.stat) && s.live == old(s.live)
                 && s.recursion == old(s.recursion) && s.expire == old(s.expire)
      ensures Debts()
    {
      OthersOwed(t);
    }

    /** What is owed to a timer depends on that timer alone. */
    twostate lemma OthersOwed(t: CSLTimerBase)
      requires old(Debts()) && now == old(now) && passed == old(passed) && held <= spots.Keys
      requires t in spots ==> Owed(t)
      requires forall s {:trigger s in spots} :: s in spots && s != t ==>
                 && s in old(spots) && spots[s] == old(spots)[s] && (s in held <==> s in old(held))
                 && unchanged(s`stat) && unchanged(s`live) && unchanged(s`recursion) && unchanged(s`expire)
      requires forall s {:trigger s in runList} :: s in runList ==>
                 && s in old(runList) && unchanged(s`live) && unchanged(s`recursion) && unchanged(s`expire)
                 && (unchanged(s`stat) || s.stat != Destroy)
      ensures Debts()
    {
      forall s | s in spots
        ensures Owed(s)
      {
        if s != t {
          assert old(Owed(s));
        }
      }
      forall s | s in runList
        ensures Ripe(s)
      {
        assert old(Ripe(s));
      }
    }

    /** The slot list a waiting timer's _list field points to. */
    method GetList(t: CSLTimerBase) returns (p: Place)
      requires Linked() && t in spots
      ensures p == spots[t].place
    {
      ghost var q := spots[t].place;
      assert At(Slots(), q) == Gear(q.gear).slots[q.slot];
      var k, j :| 0 <= k < 5 && 0 <= j < Size(k) && t in Gear(k).slots[j];
      p := Place(k, j);
      assert At(Slots(), p) == Gear(k).slots[j];
    }

    /** The list t is in survives its removal. For the head of the run list that depends
        on its _prev: a stale one does no harm as long as the timer it names is in no list
        and another timer is ready. See GearLists.Wheel.Unlink. */
    ghost predicate Removable(t: CSLTimerBase)
      reads this`runList, this`headBack, this`spots
    {
      runList != [] && runList[0] == t ==>
        headBack == null || (|runList| > 1 && headBack !in runList && headBack !in spots)
    }

    /** getList()->remove(t). The _prev of the head goes on to the next one. */
    method Unlink(t: CSLTimerBase)
      requires Valid() && (t in spots || t in runList)
      modifies this`runList, this`spots, this`held, this`passed, wheel`slots
      ensures Valid()
      ensures Table() == WheelRuns.Step(old(Table()), WheelRuns.Drop(t))
      ensures runList == Without(old(runList), t) && spots == old(spots) - {t}
    {
      hide Linked, HandsFrom, Aligned, NotAheadFrom, WheelRuns.Step;
      TableDrops(now, spots, runList, held, t);
      if t in runList {
        TakeFromRunList(t);
        assert spots - {t} == spots && held - {t} == held;
      } else {
        WithoutAbsent(runList, t);
        UnlinkWaiting(t);
      }
    }

    method TakeFromRunList(t: CSLTimerBase)
      requires Linked() && t in runList
      modifies this`runList
      ensures Linked() && t !in spots && t !in runList && runList == Without(old(runList), t)
      ensures t == old(runList)[0] ==> runList == old(runList)[1..]
    {
      if t == runList[0] {
        WithoutHead(runList);
      }
      RemoveReady(Slots(), spots, passed, runList, t);
      runList := Without(runList, t);
    }

    method UnlinkWaiting(t: CSLTimerBase)
      requires Valid() && t in spots
      modifies this`spots, this`held, this`passed, wheel`slots
      ensures Valid()
      ensures spots == old(spots) - {t} && held == old(held) - {t}
    {
      hide Linked, HandsFrom, Aligned, NotAheadFrom;
      TakeFromSlot(t);
      held := held - {t};
      LeftOwed(t);
    }

    method TakeFromSlot(t: CSLTimerBase)
      requires Linked() && t in spots
      modifies this`spots, this`passed, wheel`slots
      ensures Linked() && spots == old(spots) - {t} && passed == old(passed)
    {
      RemoveSound(Slots(), spots, passed, runList, t);
      var p := GetList(t);
      assert Gear(p.gear).slots[p.slot] == At(Slots(), p) && Shape(Slots());
      hide Sound;
      Refill(p, Without(Gear(p.gear).slots[p.slot], t), spots - {t}, passed);
    }

    twostate lemma LeftOwed(t: CSLTimerBase)
      requires old(Debts()) && now == old(now) && passed == old(passed) && runList == old(runList)
      requires spots == old(spots) - {t} && held == old(held) - {t}
      requires forall s :: s in spots || s in runList ==>
                 && s.stat == old(s.stat) && s.live == old(s.live)
                 && s.recursion == old(s.recursion) && s.expire == old(s.expire)
      ensures Debts()
    {
      OthersOwed(t);
    }

    /** A timer in no list may be changed freely. */
    twostate lemma ValidIgnores(t: CSLTimerBase)
      requires old(Valid()) && unchanged(this) && unchanged(wheel)
      requires t !in spots && t !in runList
      requires forall s :: (s in spots || s in runList) ==> unchanged(s)
      ensures Valid()
    {
      forall s | s in spots
        ensures Owed(s)
      {
        assert old(Owed(s));
      }
      forall s | s in runList
        ensures Ripe(s)
      {
        assert old(Ripe(s));
      }
    }

    lemma ListedIsHealthy(t: CSLTimerBase)
      requires Valid() && (t in spots || t in runList)
      ensures Healthy(t)
    {
      assert t in spots ==> Owed(t);
      assert t in runList ==> Ripe(t);
    }

    /** killTimer from outside a callback of the timer. When the list does not survive the
        removal nothing is said but that. */
    method KillTimer(t: CSLTimerBase) returns (ok: bool)
      requires Valid()
      requires t.live ==> t.recursion == 0 && (t in spots || t in runList)
      modifies this`runList, this`spots, this`held, this`passed, this`intact, wheel`slots, t
      ensures ok == old(t.live)
      ensures Valid() <==> (ok ==> old(Removable(t)))
      ensures ok ==> t.Value() == Ended(old(t.Value()), true, false) && !t.live
      ensures ok && Valid() ==> Table() == WheelRuns.Step(old(Table()), WheelRuns.Drop(t))
      ensures !ok ==> Table() == old(Table()) && t.Value() == old(t.Value())
      ensures old(Complete()) && t in made && Valid() ==>
                Complete() && World() == WheelLives.Do(old(World()), WheelLives.Kill(t))
    {
      hide Valid, Table, World, Complete, Removable, WheelRuns.Step;
      ghost var survives := Removable(t);
      ok := KillListed(t);
      Mark(ok ==> survives);
    }

    /** Whether the lists are still chained. */
    ghost method Mark(chained: bool)
      requires Valid()
      modifies this`intact
      ensures Valid() == chained && Table() == old(Table()) && World() == old(World()) && Complete() == old(Complete())
    {
      hide InOrder, Table, World, Complete;
      intact := chained;
      assert InOrder() == old(InOrder());
    }

    /** What killTimer does to the lists as long as they are chained. */
    method KillListed(t: CSLTimerBase) returns (ok: bool)
      requires Valid()
      requires t.live ==> t.recursion == 0 && (t in spots || t in runList)
      modifies this`runList, this`spots, this`held, this`passed, wheel`slots, t
      ensures Valid() && ok == old(t.live)
      ensures ok ==>
                && Table() == WheelRuns.Step(old(Table()), WheelRuns.Drop(t))
                && t.Value() == Ended(old(t.Value()), true, false) && !t.live
      ensures !ok ==> Table() == old(Table()) && t.Value() == old(t.Value())
      ensures old(Complete()) && t in made ==>
                Complete() && World() == WheelLives.Do(old(World()), WheelLives.Kill(t))
    {
      hide Valid, Table, World, Complete, Without, WheelRuns.Step;
      ok := t.live;
      if ok {
        ListedIsHealthy(t);
        Unlink(t);
        End(t);
        KillsWorld(t);
      } else {
        DeadWorld(t);
      }
    }

    twostate lemma KillsWorld(t: CSLTimerBase)
      requires made == old(made) && polled == old(polled) && now == old(now) && OthersSame(t)
      requires old(t.live) && !t.live && old(t.stat) != Destroy
      requires t.Value() == Ended(old(t.Value()), true, false)
      requires Table() == WheelRuns.Step(old(Table()), WheelRuns.Drop(t))
      requires runList == Without(old(runList), t) && spots.Keys == old(spots).Keys - {t}
      ensures old(Complete()) && t in made ==>
                Complete() && World() == WheelLives.Do(old(World()), WheelLives.Kill(t))
    {
      if old(Complete()) && t in made {
        StaysComplete(t);
        hide Complete;
        OnlyLife(t);
        WheelLives.KillIs(old(World()), t, World());
      }
    }

    /** Nothing is done to a dead timer. */
    lemma DeadWorld(t: CSLTimerBase)
      requires !t.live
      ensures Complete() && t in made ==>
                WheelLives.Do(World(), WheelLives.Kill(t)) == WheelLives.Do(World(), WheelLives.Pause(t)) == World()
    {
      if Complete() && t in made {
        WheelLives.DeadIgnored(World(), t);
      }
    }

    method End(t: CSLTimerBase)
      requires Valid() && t.Idle() && t !in spots && t !in runList
      modifies t
      ensures Valid()
      ensures t.Value() == Ended(old(t.Value()), true, false) && !t.live
    {
      t.OnEnd(true);
      ValidIgnores(t);
    }

    method PauseTimer(t: CSLTimerBase)
      requires Valid()
      modifies this`held, t`stat, t`pause
      ensures Valid()
      ensures old(t.live) ==> t.Value() == old(t.Value()).(stat := Paused, pause := now)
      ensures !old(t.live) ==> t.Value() == old(t.Value())
      ensures Table() == if t.live then WheelRuns.Step(old(Table()), WheelRuns.Pause(t)) else old(Table())
      ensures old(Complete()) && t in made ==>
                Complete() && World() == WheelLives.Do(old(World()), WheelLives.Pause(t))
    {
      hide Valid, Table, World, Complete, WheelRuns.Step;
      if t.live {
        HoldBack(t);
        PausesWorld(t);
      } else {
        DeadWorld(t);
      }
    }

    twostate lemma PausesWorld(t: CSLTimerBase)
      requires made == old(made) && polled == old(polled) && now == old(now) && old(t.live) && t.live
      requires spots == old(spots) && runList == old(runList)
      requires t.Value() == old(t.Value()).(stat := Paused, pause := now)
      requires Table() == WheelRuns.Step(old(Table()), WheelRuns.Pause(t))
      requires OthersSame(t)
      ensures old(Complete()) && t in made ==>
                Complete() && World() == WheelLives.Do(old(World()), WheelLives.Pause(t))
    {
      if old(Complete()) && t in made {
        StaysComplete(t);
        hide Complete;
        OnlyLife(t);
      }
    }

    method HoldBack(t: CSLTimerBase)
      requires Valid() && t.live
      modifies this`held, t`stat, t`pause
      ensures Valid()
      ensures Table() == WheelRuns.Step(old(Table()), WheelRuns.Pause(t))
      ensures t.Value() == old(t.Value()).(stat := Paused, pause := now)
    {
      hide Linked, HandsFrom, Aligned, NotAheadFrom, WheelRuns.Step;
      TablePauses(now, spots, runList, held, t);
      assert t in spots ==> Owed(t);
      held := if t in spots then held + {t} else held;
      t.SetPaused(now);
      OthersOwed(t);
    }

    /** resumeTimer from outside a callback of the timer. When the list does not survive
        the removal nothing is said but that. */
    method ResumeTimer(t: CSLTimerBase)
      requires Valid() && now < TWO_63
      requires t.live ==> t in spots || t in runList
      requires t.live && t.stat == Paused ==> t.pause <= now
      modifies this`runList, this`spots, this`held, this`passed, this`headBack, this`intact, wheel`slots
      modifies t`stat, t`expire
      ensures Valid() <==> (old(t.live && t.stat == Paused) ==> old(Removable(t)))
      ensures if old(t.live && t.stat == Paused)
              then t.Value() == TimerLife.Step(old(t.Value()), TimerLife.Resume(now))
              else t.Value() == old(t.Value()) && Table() == old(Table())
      ensures old(t.live && t.stat == Paused) && now + old(t.expire) - t.pause < TWO_64 ==>
                t.expire - now == old(t.expire) - t.pause && t.stat != Paused
      ensures old(t.live && t.stat == Paused) && Valid() ==>
                Table() == WheelRuns.Step(WheelRuns.Step(old(Table()), WheelRuns.Drop(t)),
                                          WheelRuns.Arm(t, t.expire, false))
      ensures old(Complete()) && t in made && Valid() ==>
                Complete() && World() == WheelLives.Do(old(World()), WheelLives.Resume(t))
    {
      hide Valid, Table, World, Complete, Removable, WheelRuns.Step, TimerLife.Step;
      ghost var life := t.Value();
      if t.live && t.stat == Paused {
        ListedAreCounted(t);
        ResumeAdds(life, now);
      }
      ghost var survives := t.live && t.stat == Paused ==> Removable(t);
      ResumeListed(t);
      Mark(survives);
    }

    lemma ListedAreCounted(t: CSLTimerBase)
      requires Valid() && (t in spots || t in runList)
      ensures t.expire < TWO_64 && t.interval < TWO_63
    {
      ListedIsHealthy(t);
    }

    /** What resumeTimer does to the lists as long as they are chained. The source changes
        the timer before it takes it out of its list; the list does not look. */
    method ResumeListed(t: CSLTimerBase)
      requires Valid() && now < TWO_63
      requires t.live ==> t in spots || t in runList
      requires t.live && t.stat == Paused ==> t.pause <= now
      modifies this`runList, this`spots, this`held, this`passed, this`headBack, wheel`slots, t`stat, t`expire
      ensures Valid()
      ensures if old(t.live && t.stat == Paused)
              then t.Value() == TimerLife.Step(old(t.Value()), TimerLife.Resume(now))
                   && Table() == WheelRuns.Step(WheelRuns.Step(old(Table()), WheelRuns.Drop(t)),
                                                WheelRuns.Arm(t, t.expire, false))
              else t.Value() == old(t.Value()) && Table() == old(Table())
      ensures old(Complete()) && t in made ==>
                Complete() && World() == WheelLives.Do(old(World()), WheelLives.Resume(t))
    {
      hide Valid, Table, World, Complete, Without, WheelRuns.Step, TimerLife.Step;
      if t.live && t.stat == Paused {
        ListedIsHealthy(t);
        Unlink(t);
        ArmResumed(t);
        ResumesWorld(t);
      } else {
        NotPausedWorld(t);
      }
    }

    lemma NotPausedWorld(t: CSLTimerBase)
      requires !(t.live && t.stat == Paused)
      ensures Complete() && t in made ==> WheelLives.Do(World(), WheelLives.Resume(t)) == World()
    {
    }

    twostate lemma ResumesWorld(t: CSLTimerBase)
      requires made == old(made) && polled == old(polled) && now == old(now) && OthersSame(t) && now < TWO_63
      requires old(t.live && t.stat == Paused && Healthy(t)) && t.live
      requires t.Value() == TimerLife.Step(old(t.Value()), TimerLife.Resume(now))
      requires Table() == WheelRuns.Step(WheelRuns.Step(old(Table()), WheelRuns.Drop(t)),
                                         WheelRuns.Arm(t, t.expire, false))
      requires runList == Without(old(runList), t) + (if t.expire <= now then [t] else [])
      requires spots.Keys == old(spots).Keys - {t} + (if t.expire <= now then {} else {t})
      ensures old(Complete()) && t in made ==>
                Complete() && World() == WheelLives.Do(old(World()), WheelLives.Resume(t))
    {
      if old(Complete()) && t in made {
        StaysComplete(t);
        hide Complete;
        OnlyLife(t);
        WheelLives.ResumeIs(old(World()), t, World());
      }
    }

    method ArmResumed(t: CSLTimerBase)
      requires Valid() && now < TWO_63 && t.pause <= now
      requires Healthy(t) && t !in spots && t !in runList
      modifies this`runList, this`spots, this`held, this`headBack, wheel`slots, t`stat, t`expire
      ensures Valid()
      ensures t.Value() == TimerLife.Step(old(t.Value()), TimerLife.Resume(now))
      ensures Table() == WheelRuns.Step(old(Table()), WheelRuns.Arm(t, t.expire, false))
      ensures runList == old(runList) + (if t.expire <= now then [t] else [])
      ensures spots.Keys == old(spots).Keys + (if t.expire <= now then {} else {t})
    {
      hide Valid;
      ghost var f := Table();
      t.SetResumed(now);
      ValidIgnores(t);
      assert Table() == f && t.stat != Paused;
      Arm(t);
    }

    /** popFront of the run list. The new head keeps its old _prev. */
    method PopRunList() returns (t: CSLTimerBase)
      requires Valid() && runList != []
      modifies this`runList, this`headBack
      ensures Valid() && t == old(runList[0]) && runList == old(runList)[1..]
      ensures t !in runList && t !in spots && old(t in runList) && Ripe(t)
      ensures headBack == if runList == [] then null else t
      ensures Table() == WheelRuns.Step(old(Table()), WheelRuns.Drop(t))
    {
      hide Linked, HandsFrom, Aligned, NotAheadFrom, WheelRuns.Step;
      t := runList[0];
      TableDrops(now, spots, runList, held, t);
      TakeFromRunList(t);
      assert spots - {t} == spots && held - {t} == held;
      headBack := if runList == [] then null else t;
    }

    lemma HeadIsFirst()
      requires Valid() && runList != []
      ensures Without(runList, runList[0]) == runList[1..]
    {
      WithoutHead(runList);
    }

    /** popFront, and the callback of the head begins. */
    method BeginPoll() returns (t: CSLTimerBase)
      requires Valid() && runList != []
      modifies this`runList, this`headBack, this`polled
      ensures Valid() && t == old(runList[0]) == polled && runList == old(runList)[1..]
      ensures t !in runList && t !in spots && old(t in runList) && Ripe(t)
      ensures headBack == if runList == [] then null else t
      ensures Table() == WheelRuns.Step(old(Table()), WheelRuns.Drop(t))
      ensures old(Rested()) ==> Complete() && t in made && World() == WheelLives.Popped(old(World()))
    {
      hide Valid, World, Complete, Without, WheelRuns.Step, WheelLives.Popped;
      HeadIsFirst();
      t := PopRunList();
      label popped:
      polled := t;
      assert Valid() == old@popped(Valid());
      PopsWorld();
    }

    twostate lemma PopsWorld()
      requires made == old(made) && now == old(now) && old(runList) != [] && polled == old(runList[0])
      requires spots == old(spots) && runList == old(runList)[1..] == Without(old(runList), old(runList[0]))
      requires Table() == WheelRuns.Step(old(Table()), WheelRuns.Drop(old(runList[0])))
      requires forall s :: s in made ==> s.Value() == old(s.Value()) && s.live == old(s.live)
      ensures old(Rested()) ==> Complete() && old(runList[0]) in made && World() == WheelLives.Popped(old(World()))
    {
      if old(Rested()) {
        var t := old(runList[0]);
        assert t in old(runList) && old(runList) == [t] + old(runList)[1..];
        assert Lives() == old(Lives());
      }
    }

    /** What process does with the timer once its callback has run. */
    method EndPoll(t: CSLTimerBase, does: Reaction) returns (verdict: TimerState)
      requires Valid() && now < TWO_63 && polled == t
      requires Healthy(t) && t !in spots && t !in runList
      modifies this`runList, this`spots, this`held, this`headBack, this`polled, wheel`slots, t
      ensures Valid() && polled == null
      ensures t.Value() == TimerLife.Step(old(t.Value()), TimerLife.Poll(now, does))
      ensures verdict == TimerState.Recreate <==> t.live
      ensures Table() == if t.live then WheelRuns.Step(old(Table()), WheelRuns.Arm(t, t.expire, t.stat == Paused))
                         else old(Table())
      ensures runList == old(runList) + (if t.live && t.expire <= now then [t] else [])
      ensures old(Complete()) && t in made ==> Rested() && World() == WheelLives.Finish(old(World()), t, does)
    {
      hide Valid, World, Complete, WheelRuns.Step, TimerLife.Step, WheelLives.Finish;
      verdict := PollAndArm(t, does);
      label armed:
      polled := null;
      assert Valid() == old@armed(Valid());
      FinishesWorld(does);
    }

    twostate lemma FinishesWorld(does: Reaction)
      requires made == old(made) && now == old(now) && now < TWO_63 && polled == null
      requires var t := old(polled);
               && t != null && old(Healthy(t))
               && t.Value() == TimerLife.Step(old(t.Value()), TimerLife.Poll(now, does))
               && (t.live <==> t.stat != Destroy)
               && Table() == (if t.live then WheelRuns.Step(old(Table()), WheelRuns.Arm(t, t.expire, t.stat == Paused))
                              else old(Table()))
               && runList == old(runList) + (if t.live && t.expire <= now then [t] else [])
               && spots.Keys == old(spots).Keys + (if t.live && t.expire > now then {t} else {})
               && OthersSame(t)
      ensures old(Complete()) && old(polled) in made ==>
                Rested() && World() == WheelLives.Finish(old(World()), old(polled), does)
    {
      if old(Complete()) && old(polled) in made {
        var t := old(polled);
        FinishesComplete();
        hide Complete;
        OnlyLife(t);
        WheelLives.FinishIs(old(World()), does, t, World());
      }
    }

    twostate lemma FinishesComplete()
      requires old(Complete()) && made == old(made) && polled == null && old(polled) in made
      requires var t := old(polled);
               && (t.live <==> t.stat != Destroy) && OthersSame(t)
               && runList == old(runList) + (if t.live && t.expire <= now then [t] else [])
               && spots.Keys == old(spots).Keys + (if t.live && t.expire > now then {t} else {})
      ensures Complete()
    {
    }

    /** One round of the polling loop of process. */
    method PollOne(does: Reaction) returns (t: CSLTimerBase, verdict: TimerState)
      requires Valid() && runList != [] && now < TWO_63
      modifies this`runList, this`spots, this`held, this`headBack, this`polled, wheel`slots, runList[0]
      ensures Valid() && t == old(runList[0])
      ensures old(t in runList && Ripe(t))
      ensures t.Value() == TimerLife.Step(old(t.Value()), TimerLife.Poll(now, does))
      ensures verdict == TimerState.Recreate <==> t.live
      ensures Table() ==
              var dropped := WheelRuns.Step(old(Table()), WheelRuns.Drop(t));
              if t.live then WheelRuns.Step(dropped, WheelRuns.Arm(t, t.expire, t.stat == Paused)) else dropped
      ensures runList == old(runList)[1..] + (if t.live && t.expire <= now then [t] else [])
      ensures old(Rested()) ==> Rested() && World() == WheelLives.Do(old(World()), WheelLives.Poll(does))
    {
      hide Valid, Table, World, Complete, WheelRuns.Step, TimerLife.Step;
      hide WheelLives.Do, WheelLives.Popped, WheelLives.Finish;
      HeadIsAlive();
      t := BeginPoll();
      verdict := EndPoll(t, does);
      if old(Rested()) {
        WheelLives.FinishIsPoll(old(World()), does);
      }
    }

    lemma HeadIsAlive()
      requires Valid() && runList != []
      ensures Complete() ==> World().queue == runList && WheelLives.Alive(World(), runList[0])
    {
      assert runList[0] in runList && Ripe(runList[0]);
    }

    /** A round whose callback also kills another timer: the same as killing it just
        before the round, unless it is the only other one on the run list. */
    method PollKilling(u: CSLTimerBase, does: Reaction) returns (t: CSLTimerBase)
      requires Valid() && runList != [] && now < TWO_63 && Rested()
      requires u in made && u.live && u != runList[0]
      modifies this`runList, this`spots, this`held, this`passed, this`headBack, this`polled, this`intact
      modifies wheel`slots, runList[0], u
      ensures Valid() <==> !old(|runList| == 2 && u == runList[1])
      ensures Valid() ==> Rested()
      ensures Valid() ==> World() == WheelLives.Run(old(World()), [WheelLives.Kill(u), WheelLives.Poll(does)])
    {
      hide Valid, Table, World, Complete, WheelLives.Run;
      ghost var survives;
      t, survives := RoundKilling(u, does);
      Mark(survives);
    }

    /** The round as long as the lists are chained. */
    method RoundKilling(u: CSLTimerBase, does: Reaction) returns (t: CSLTimerBase, ghost survives: bool)
      requires Valid() && runList != [] && now < TWO_63 && Rested()
      requires u in made && u.live && u != runList[0]
      modifies this`runList, this`spots, this`held, this`passed, this`headBack, this`polled
      modifies wheel`slots, runList[0], u
      ensures Valid() && Rested() && (survives <==> !old(|runList| == 2 && u == runList[1]))
      ensures World() == WheelLives.Run(old(World()), [WheelLives.Kill(u), WheelLives.Poll(does)])
    {
      hide Valid, Table, World, Complete, TimerLife.Step;
      hide WheelLives.Do, WheelLives.Popped, WheelLives.Finish;
      HeadIsAlive();
      t := BeginPoll();
      LivesAreListed(u);
      TableLists(t);
      survives := Removable(u);
      var ok := KillListed(u);
      TableLists(t);
      var verdict := EndPoll(t, does);
      assert [WheelLives.Kill(u)][1..] == [];
      WheelLives.AskedInCallback(old(World()), [WheelLives.Kill(u)], does);
    }

    lemma TableLists(t: CSLTimerBase)
      ensures t in spots <==> t in Table().waiting
      ensures t in runList <==> t in Table().ready
    {
    }

    lemma LivesAreListed(u: CSLTimerBase)
      requires Valid() && Complete() && u in made && u.live && u != polled
      ensures u.recursion == 0 && (u in spots || u in runList)
    {
      ListedIsHealthy(u);
    }

    method PollAndArm(t: CSLTimerBase, does: Reaction) returns (verdict: TimerState)
      requires Valid() && now < TWO_63
      requires Healthy(t) && t !in spots && t !in runList
      modifies this`runList, this`spots, this`held, this`headBack, wheel`slots, t
      ensures Valid()
      ensures t.Value() == TimerLife.Step(old(t.Value()), TimerLife.Poll(now, does))
      ensures verdict == TimerState.Recreate <==> t.live
      ensures t.live <==> t.stat != Destroy
      ensures Table() == if t.live then WheelRuns.Step(old(Table()), WheelRuns.Arm(t, t.expire, t.stat == Paused))
                         else old(Table())
      ensures runList == old(runList) + (if t.live && t.expire <= now then [t] else [])
      ensures spots.Keys == old(spots).Keys + (if t.live && t.expire > now then {t} else {})
    {
      verdict := t.PollStep(now, does);
      ValidIgnores(t);
      if verdict == TimerState.Recreate {
        Arm(t);
      }
    }

    /** startTimer; the arguments are int64, int32 and int64. */
    method StartTimer(delay: int, count: int, interval: int) returns (t: CSLTimerBase)
      requires Valid() && now < MAX_JIFFIES
      requires IsInt64(delay) && IsInt64(interval)
      modifies this`runList, this`spots, this`held, this`headBack, this`made, wheel`slots
      ensures Valid() && fresh(t)
      ensures t.Value() == Life(TimerState.Recreate, t.expire, 0, true, count, t.interval, [])
      ensures delay >= 20 ==> delay - 20 < 20 * (t.expire - now) <= delay
      ensures 0 < delay < 20 ==> t.expire == now + 1
      ensures -20 < delay <= 0 ==> t.expire == now
      ensures delay <= -20 ==>
                var early := (now - t.expire) % TWO_64;
                0 < early < TWO_63 && -delay - 20 < 20 * early <= -delay
      ensures interval >= 20 ==> interval - 20 < 20 * t.interval <= interval
      ensures interval < 20 && interval != 0 ==> t.interval == 1
      ensures interval == 0 ==> t.interval == 0
      ensures made == old(made) + {t}
      ensures Table() == WheelRuns.Step(old(Table()), WheelRuns.Arm(t, t.expire, false))
      ensures old(Complete()) ==>
                Complete() && World() == WheelLives.Do(old(World()), WheelLives.Start(t, t.Value()))
    {
      hide Valid, World, Complete, StartExpiry, IntervalJiffies;
      InJiffies(now, delay, interval);
      t := new CSLTimerBase(StartExpiry(now, delay), count, IntervalJiffies(interval));
      assert Valid() == old(Valid()) && Table() == old(Table());
      Enter(t);
      StartsWorld(t);
    }

    method Enter(t: CSLTimerBase)
      requires Valid() && Healthy(t) && t !in spots && t !in runList
      modifies this`runList, this`spots, this`held, this`headBack, this`made, wheel`slots
      ensures Valid() && made == old(made) + {t}
      ensures Table() == WheelRuns.Step(old(Table()), WheelRuns.Arm(t, t.expire, t.stat == Paused))
      ensures runList == (if t.expire <= now then old(runList) + [t] else old(runList))
      ensures spots.Keys == (if t.expire <= now then old(spots).Keys else old(spots).Keys + {t})
    {
      hide Valid;
      Arm(t);
      label armed:
      made := made + {t};
      assert Valid() == old@armed(Valid()) && Table() == old@armed(Table());
    }

    twostate lemma StartsWorld(new t: CSLTimerBase)
      requires made == old(made) + {t} && t !in old(made) && now == old(now) && polled == old(polled)
      requires t.live && t.stat == TimerState.Recreate
      requires Table() == WheelRuns.Step(old(Table()), WheelRuns.Arm(t, t.expire, false))
      requires runList == (if t.expire <= now then old(runList) + [t] else old(runList))
      requires spots.Keys == (if t.expire <= now then old(spots).Keys else old(spots).Keys + {t})
      requires forall s :: s in old(made) ==> s.Value() == old(s.Value()) && s.live == old(s.live)
      ensures old(Complete()) ==>
                Complete() && World() == WheelLives.Do(old(World()), WheelLives.Start(t, t.Value()))
    {
      StartsComplete(t);
      assert Lives() == old(Lives())[t := t.Value()];
      hide Complete, Lives;
    }

    twostate lemma StartsComplete(new t: CSLTimerBase)
      requires made == old(made) + {t} && t !in old(made) && now == old(now) && polled == old(polled)
      requires t.live && t.stat == TimerState.Recreate
      requires runList == (if t.expire <= now then old(runList) + [t] else old(runList))
      requires spots.Keys == (if t.expire <= now then old(spots).Keys else old(spots).Keys + {t})
      requires forall s :: s in old(made) ==> s.Value() == old(s.Value()) && s.live == old(s.live)
      ensures old(Complete()) ==> Complete()
    {
    }

    /** update: every second call is a tick. */
    method Update() returns (ghost ticks: seq<WheelLives.Call<CSLTimerBase>>)
      requires Valid() && 0 <= timerTick <= 1
      modifies this`now, this`timerTick, this`runList, this`spots, this`held, this`passed, this`headBack
      modifies wheel`slots, wheel`nowSlot
      ensures Valid() && 0 <= timerTick <= 1
      ensures 2 * now + timerTick == old(2 * now + timerTick) + 1
      ensures OnlyTicks(ticks, now - old(now))
      ensures World() == WheelLives.Run(old(World()), ticks)
      ensures now < MAX_JIFFIES ==> WheelLives.AllPossible(old(World()), ticks)
      ensures ListsStay(old(spots.Keys), old(runList))
    {
      hide Valid, World;
      timerTick := timerTick + 1;
      ticks := [];
      if timerTick == 2 {
        hide WheelLives.Run, WheelLives.AllPossible, ListsStay;
        ticks := TickOnce();
        timerTick := 0;
      }
    }

    method TickOnce() returns (ghost ticks: seq<WheelLives.Call<CSLTimerBase>>)
      requires Valid()
      modifies this`now, this`runList, this`spots, this`held, this`passed, this`headBack
      modifies wheel`slots, wheel`nowSlot
      ensures Valid() && now == old(now) + 1 && OnlyTicks(ticks, 1)
      ensures World() == WheelLives.Run(old(World()), ticks)
      ensures now < MAX_JIFFIES ==> WheelLives.AllPossible(old(World()), ticks)
      ensures ListsStay(old(spots.Keys), old(runList))
    {
      hide Valid, World, Transfer, ListsStay;
      hide WheelLives.Run, WheelLives.AllPossible, WheelRuns.Step, WheelLives.SameMembers;
      ghost var moved := OnJiffiesUpdate();
      TicksWorld(moved);
      ticks := [WheelLives.Tick(moved)];
    }

    twostate lemma TicksWorld(new moved: seq<CSLTimerBase>)
      requires now == old(now) + 1 && made == old(made)
      requires forall t :: t in made ==> t.Value() == old(t.Value())
      requires runList == old(runList) + moved && Transfer(old(spots), spots, moved)
      requires Table() == WheelRuns.Step(old(Table()), WheelRuns.Tick)
      requires NoDup(moved) && WheelLives.SameMembers(moved, WheelRuns.Due(old(Table())))
      ensures World() == WheelLives.Run(old(World()), [WheelLives.Tick(moved)])
      ensures now < MAX_JIFFIES ==> WheelLives.AllPossible(old(World()), [WheelLives.Tick(moved)])
      ensures ListsStay(old(spots.Keys), old(runList))
    {
      assert Lives() == old(Lives());
      assert [WheelLives.Tick(moved)][1..] == [];
    }

    /** What was waiting waits on or has become ready, and what was ready still is. */
    ghost predicate ListsStay(waiting: set<CSLTimerBase>, ready: seq<CSLTimerBase>)
      reads this`spots, this`runList
    {
      && spots.Keys <= waiting && (forall t :: t in ready ==> t in runList)
      && (forall t :: t in waiting ==> t in spots || t in runList)
      && (forall t :: t in runList ==> t in ready || t in waiting)
    }

    /** The wheel has kept up with the clock: every 10 ms since the first call
        have been one update, every 20 ms one jiffy. */
    ghost predicate Steady()
      reads this`now, this`timerTick, this`started, this`last, this`first
    {
      0 <= timerTick <= 1 && (started ==> last - first == 10 * (2 * now + timerTick))
                          && (!started ==> now == 0 == timerTick)
    }

    method Advance(count: int) returns (ghost ticks: seq<WheelLives.Call<CSLTimerBase>>)
      requires Valid() && 0 <= timerTick <= 1
      modifies this`now, this`timerTick, this`runList, this`spots, this`held, this`passed, this`headBack
      modifies wheel`slots, wheel`nowSlot
      ensures Valid() && 0 <= timerTick <= 1 && now >= old(now)
      ensures 2 * now + timerTick == old(2 * now + timerTick) + (if count > 0 then count else 0)
      ensures OnlyTicks(ticks, now - old(now))
      ensures World() == WheelLives.Run(old(World()), ticks)
      ensures now < MAX_JIFFIES ==> WheelLives.AllPossible(old(World()), ticks)
      ensures ListsStay(old(spots.Keys), old(runList))
    {
      var i := 0;
      ticks := [];
      while i < count
        invariant 0 <= i && (count > 0 ==> i <= count) && (count <= 0 ==> i == 0)
        invariant Valid() && 0 <= timerTick <= 1 && now >= old(now)
        invariant 2 * now + timerTick == old(2 * now + timerTick) + i
        invariant OnlyTicks(ticks, now - old(now))
        invariant World() == WheelLives.Run(old(World()), ticks)
        invariant now < MAX_JIFFIES ==> WheelLives.AllPossible(old(World()), ticks)
        invariant ListsStay(old(spots.Keys), old(runList))
      {
        ghost var more := Update();
        WheelLives.RunAppends(old(World()), ticks, more);
        if now < MAX_JIFFIES {
          WheelLives.PossibleAppends(old(World()), ticks, more);
        }
        ticks := ticks + more;
        i := i + 1;
      }
    }

    /** The polling loop of process: it ends when the clock says so, after as many rounds
        as there are entries in does, or when the run list is empty. Each entry says what
        the callback of its round does to its own timer. */
    method PollAll(does: seq<Reaction>) returns (rounds: nat)
      requires Valid() && now < TWO_63
      modifies this`runList, this`spots, this`held, this`headBack, this`polled, wheel`slots, runList
      ensures Valid()
      ensures rounds <= |does| && (rounds == |does| || runList == [])
      ensures old(Rested()) ==>
                Rested() && World() == WheelLives.Run(old(World()), WheelLives.Polls(does[..rounds]))
    {
      hide Valid, World, Complete, WheelLives.Run, WheelLives.Do, WheelLives.Polls;
      rounds := 0;
      WheelLives.NoPolls(World());
      assert does[..rounds] == [];
      while rounds < |does| && runList != []
        invariant 0 <= rounds <= |does| && Valid()
        invariant forall t :: t in runList ==> t in old(runList)
        invariant old(Rested()) ==>
                    Rested() && World() == WheelLives.Run(old(World()), WheelLives.Polls(does[..rounds]))
        decreases |does| - rounds
      {
        assert runList[0] in runList;
        var t, verdict := PollOne(does[rounds]);
        ghost var calls := WheelLives.Polls<CSLTimerBase>(does[..rounds]);
        WheelLives.RunSnoc(old(World()), calls, WheelLives.Poll(does[rounds]));
        WheelLives.PollsAppend<CSLTimerBase>(does[..rounds], does[rounds]);
        assert does[..rounds + 1] == does[..rounds] + [does[rounds]];
        rounds := rounds + 1;
      }
    }

    /** The static variable of process takes its value in the first call. */
    method StartClock(tick: int)
      requires Steady()
      modifies this`started, this`last, this`first
      ensures Steady() && started
      ensures Valid() == old(Valid()) && World() == old(World()) && Complete() == old(Complete())
      ensures if old(started) then first == old(first) && last == old(last) else first == last == tick
    {
      hide Valid, World, Complete;
      if !started {
        started, last, first := true, tick, tick;
      }
    }

    /** As many updates as the clock asks for. */
    method CatchUp(tick: int) returns (ghost ticks: seq<WheelLives.Call<CSLTimerBase>>)
      requires Valid() && Steady() && started
      modifies this`now, this`timerTick, this`runList, this`spots, this`held, this`passed, this`headBack, this`last
      modifies wheel`slots, wheel`nowSlot
      ensures Valid() && now >= old(now)
      ensures var gap := ToInt32(tick - old(last));
              && (gap > -10 <==> Steady())
              && (0 <= gap == tick - old(last) ==> now == (tick - first) / 20 && last <= tick < last + 10)
      ensures OnlyTicks(ticks, now - old(now))
      ensures World() == WheelLives.Run(old(World()), ticks)
      ensures now < MAX_JIFFIES ==> WheelLives.AllPossible(old(World()), ticks)
      ensures ListsStay(old(spots.Keys), old(runList))
      ensures now <= old(now) + 0x8000_0000
    {
      hide Valid, World, WheelLives.Run, WheelLives.AllPossible, OnlyTicks, ListsStay;
      var gap := ToInt32(tick - last);
      var count := TruncDiv(gap, 10);
      ticks := Advance(count);
      ClockLemma(first, last, old(now), old(timerTick), now, timerTick, tick, gap);
      label advanced:
      last := last + count * 10;
      assert Valid() == old@advanced(Valid()) && World() == old@advanced(World());
    }

    /** process, with the clock reading it starts from: as many ticks as the clock asks
        for, then polls of the head of the run list, until the time is up or the list is
        empty. No timer of the wheel is touched but by those polls. */
    method Process(tick: int, does: seq<Reaction>)
      returns (rounds: nat, ghost ticks: seq<WheelLives.Call<CSLTimerBase>>)
      requires Valid() && Steady() && now < MAX_JIFFIES
      modifies this, wheel`slots, wheel`nowSlot, runList, spots.Keys
      ensures Valid() && started && old(now) <= now <= old(now) + 0x8000_0000
      ensures first == if old(started) then old(first) else tick
      ensures var was := if old(started) then old(last) else tick;
              var gap := ToInt32(tick - was);
              && (gap > -10 <==> Steady())
              && (0 <= gap == tick - was ==> now == (tick - first) / 20 && last <= tick < last + 10)
      ensures OnlyTicks(ticks, now - old(now))
      ensures rounds <= |does| && (rounds == |does| || runList == [])
      ensures made == old(made)
      ensures old(Rested()) ==>
                Rested() && World() == WheelLives.Run(old(World()), CallsOf(ticks, does, rounds))
      ensures now < MAX_JIFFIES ==> WheelLives.AllPossible(old(World()), CallsOf(ticks, does, rounds))
      ensures now < MAX_JIFFIES && old(Rested() && WheelLives.Inv(World())) ==> WheelLives.Inv(World())
    {
      hide Valid, Steady, ToInt32, Complete, World, WheelLives.Inv;
      hide WheelLives.Run, WheelLives.AllPossible, WheelLives.Polls, OnlyTicks;
      StartClock(tick);
      ticks := CatchUp(tick);
      ListsStayComplete();
      rounds := PollAll(does);
      WheelLives.RunAppends(old(World()), ticks, WheelLives.Polls<CSLTimerBase>(does[..rounds]));
      if now < MAX_JIFFIES {
        WheelLives.PollsFollow(old(World()), ticks, does[..rounds]);
      }
    }

    /** The first i readings have been worked off. */
    ghost predicate KeptUp(readings: seq<int>, i: nat)
      requires i <= |readings|
      reads this`now, this`timerTick, this`started, this`last, this`first
    {
      && Steady()
      && if i == 0 then !started
         else && started && first == readings[0] && last <= readings[i - 1] < last + 10
              && now == (readings[i - 1] - first) / 20
    }

    lemma CanProcess(readings: seq<int>, i: nat)
      requires GoesOn(readings) && i < |readings| && KeptUp(readings, i) && Rested()
      ensures now < MAX_JIFFIES && (forall t :: t in runList ==> t in made) && (forall t :: t in spots ==> t in made)
      ensures started ==> 0 <= readings[i] - last < 0x8000_0000
      ensures readings[0] <= readings[i] && (readings[i] - readings[0]) / 20 < MAX_JIFFIES
    {
      Since(readings, i);
    }

    method ProcessNext(readings: seq<int>, i: nat, does: seq<Reaction>)
      returns (rounds: nat, ghost turn: seq<WheelLives.Call<CSLTimerBase>>)
      requires Valid() && Rested() && WheelLives.Inv(World())
      requires GoesOn(readings) && i < |readings| && KeptUp(readings, i)
      modifies this, wheel`slots, wheel`nowSlot, made
      ensures Valid() && Rested() && WheelLives.Inv(World()) && made == old(made)
      ensures KeptUp(readings, i + 1)
      ensures IsTurn(turn, now - old(now), does, rounds) && (rounds == |does| || World().queue == [])
      ensures World() == WheelLives.Run(old(World()), turn) && WheelLives.AllPossible(old(World()), turn)
    {
      hide Valid, Complete, GoesOn, ToInt32;
      hide WheelLives.Inv, WheelLives.Run, WheelLives.AllPossible, WheelLives.Polls;
      CanProcess(readings, i);
      ghost var ticks;
      rounds, ticks := Process(readings[i], does);
      turn := CallsOf(ticks, does, rounds);
      assert turn[..|ticks|] == ticks && turn[|ticks|..] == WheelLives.Polls<CSLTimerBase>(does[..rounds]);
    }

    /** A wheel whose process is called again and again, k readings of the clock having been
        worked off before: after every call the jiffy counter is the time since the first
        call, in units of 20 ms, and each call is the ticks that takes, then polls until its
        rounds or the run list are used up. */
    method ProcessFrom(readings: seq<int>, k: nat, does: seq<seq<Reaction>>)
      returns (jiffies: seq<nat>, rounds: seq<nat>, ghost turns: seq<seq<WheelLives.Call<CSLTimerBase>>>)
      requires Valid() && Rested() && WheelLives.Inv(World())
      requires k <= |readings| && GoesOn(readings) && KeptUp(readings, k) && |does| == |readings| - k
      modifies this, wheel`slots, wheel`nowSlot, made
      ensures Valid() && Rested() && WheelLives.Inv(World()) && KeptUp(readings, |readings|)
      ensures |jiffies| == |does|
      ensures forall i :: 0 <= i < |does| ==> jiffies[i] == (readings[k + i] - readings[0]) / 20
      ensures AreTurns(old(World()), turns, jiffies, does, rounds)
      ensures World() == WheelLives.Run(old(World()), Joined(turns))
      ensures WheelLives.AllPossible(old(World()), Joined(turns))
    {
      jiffies, rounds, turns := [], [], [];
      NowIs();
      hide Valid, Complete, World, WheelLives.Inv, AreTurns, IsTurn, Joined, WheelLives.Run, WheelLives.AllPossible;
      NoTurns(World(), does);
      var i := 0;
      while i < |does|
        invariant 0 <= i <= |does|
        invariant Valid() && Rested() && WheelLives.Inv(World()) && made == old(made) && KeptUp(readings, k + i)
        invariant |jiffies| == |turns| == i
        invariant now == if i == 0 then old(World()).table.now else jiffies[i - 1]
        invariant forall j :: 0 <= j < i ==> jiffies[j] == (readings[k + j] - readings[0]) / 20
        invariant AreTurns(old(World()), turns, jiffies, does, rounds)
        invariant World() == WheelLives.Run(old(World()), Joined(turns))
        invariant WheelLives.AllPossible(old(World()), Joined(turns))
      {
        var n;
        ghost var turn;
        n, turn := ProcessNext(readings, k + i, does[i]);
        WheelLives.RunAppends(old(World()), Joined(turns), turn);
        WheelLives.PossibleAppends(old(World()), Joined(turns), turn);
        OneMoreTurn(old(World()), turns, jiffies, does, rounds, turn, now, n);
        jiffies, rounds, turns, i := jiffies + [now], rounds + [n], turns + [turn], i + 1;
      }
    }

    lemma NowIs()
      ensures World().table.now == now
    {
    }

    /** The same for a new wheel. */
    method ProcessAll(readings: seq<int>, does: seq<seq<Reaction>>)
      returns (jiffies: seq<nat>, rounds: seq<nat>, ghost turns: seq<seq<WheelLives.Call<CSLTimerBase>>>)
      requires Valid() && Steady() && !started && Rested() && WheelLives.Inv(World())
      requires GoesOn(readings) && |does| == |readings|
      modifies this, wheel`slots, wheel`nowSlot, made
      ensures Valid() && Steady() && Rested() && WheelLives.Inv(World())
      ensures |jiffies| == |readings|
      ensures forall i :: 0 <= i < |readings| ==> jiffies[i] == (readings[i] - readings[0]) / 20
      ensures now == if readings == [] then 0 else jiffies[|readings| - 1]
      ensures AreTurns(old(World()), turns, jiffies, does, rounds)
      ensures World() == WheelLives.Run(old(World()), Joined(turns))
      ensures WheelLives.AllPossible(old(World()), Joined(turns))
    {
      hide Valid, Complete, World, WheelLives.Inv, AreTurns, IsTurn, Joined, WheelLives.Run, WheelLives.AllPossible;
      jiffies, rounds, turns := ProcessFrom(readings, 0, does);
    }

    /** A timer started after k readings of the clock, and further calls of process. It is
        due at the reading `due`, which is its delay later, give or take 20 ms: in the first
        call with that reading or a later one it gets on the run list, before any poll of
        that call, and up to then it has no callback. */
    method StartAndProcess(delay: int, count: int, interval: int, readings: seq<int>, k: nat,
                           does: seq<seq<Reaction>>)
      returns (t: CSLTimerBase, jiffies: seq<nat>, rounds: seq<nat>,
               ghost turns: seq<seq<WheelLives.Call<CSLTimerBase>>>,
               ghost begun: WheelLives.World<CSLTimerBase>, ghost due: int)
      requires Valid() && Rested() && WheelLives.Inv(World())
      requires 0 < k <= |readings| && GoesOn(readings) && KeptUp(readings, k) && |does| == |readings| - k
      requires IsInt64(delay) && IsInt64(interval) && delay > 0
      modifies this, wheel`slots, wheel`nowSlot, made
      ensures Valid() && Rested() && WheelLives.Inv(World()) && KeptUp(readings, |readings|)
      ensures t in begun.lives && begun == WheelLives.Do(old(World()), WheelLives.Start(t, begun.lives[t]))
      ensures if delay >= 20 then delay - 20 < due - readings[k - 1] <= delay + 20
              else 20 < due - readings[k - 1] <= 40
      ensures |turns| == |jiffies| == |does| && AreTurns(begun, turns, jiffies, does, rounds)
      ensures World() == WheelLives.Run(begun, Joined(turns))
      ensures forall i {:trigger turns[i]} :: 0 <= i < |does| && readings[k + i] < due ==>
                NothingYet(begun, turns, t, i)
      ensures forall i {:trigger turns[i]} :: 0 <= i < |does| && readings[k + i - 1] < due <= readings[k + i] ==>
                GetsReady(begun, turns, jiffies, t, i)
    {
      hide Valid, Complete, World, WheelLives.Inv, AreTurns, IsTurn, Joined, WheelLives.Run, WheelLives.AllPossible;
      hide WheelLives.Do, NothingYet, GetsReady, GoesOn, WheelLives.Waits;
      t := StartWaiting(delay, count, interval, readings, k);
      begun := World();
      due := first + 20 * (t.expire + 1);
      ghost var e := t.expire;
      jiffies, rounds, turns := ProcessFrom(readings, k, does);
      Lengths(begun, turns, jiffies, does, rounds);
      FirstCallback(begun, turns, jiffies, does, rounds, t);
      forall i | 0 <= i < |does|
        ensures readings[k + i] < due ==> NothingYet(begun, turns, t, i)
        ensures readings[k + i - 1] < due <= readings[k + i] ==> GetsReady(begun, turns, jiffies, t, i)
      {
        PastExpiry(readings[k + i] - readings[0], e);
        PastExpiry(readings[k + i - 1] - readings[0], e);
      }
    }

    method StartWaiting(delay: int, count: int, interval: int, ghost readings: seq<int>, ghost k: nat)
      returns (t: CSLTimerBase)
      requires Valid() && Rested() && WheelLives.Inv(World())
      requires 0 < k <= |readings| && GoesOn(readings) && KeptUp(readings, k)
      requires IsInt64(delay) && IsInt64(interval) && delay > 0
      modifies this`runList, this`spots, this`held, this`headBack, this`made, wheel`slots
      ensures Valid() && Rested() && WheelLives.Inv(World()) && KeptUp(readings, k) && fresh(t)
      ensures t in World().lives && World().lives[t] == t.Value() && t.log == [] && WheelLives.Waits(World(), t)
      ensures World() == WheelLives.Do(old(World()), WheelLives.Start(t, t.Value())) && World().table.now == now
      ensures made == old(made) + {t}
      ensures var due := first + 20 * (t.expire + 1);
              if delay >= 20 then delay - 20 < due - readings[k - 1] <= delay + 20
              else 20 < due - readings[k - 1] <= 40
    {
      hide Valid, Complete, WheelLives.Inv, WheelLives.Do;
      CounterFits(readings, k);
      t := StartTimer(delay, count, interval);
      BecomesWaiting(old(World()), World(), t, t.Value());
    }

    lemma CounterFits(readings: seq<int>, k: nat)
      requires 0 < k <= |readings| && GoesOn(readings) && KeptUp(readings, k) && Rested()
      ensures now < MAX_JIFFIES && World().table.now == now
      ensures 20 * now <= readings[k - 1] - first < 20 * now + 20
      ensures forall t :: t in World().lives ==> t in made
    {
      Since(readings, k - 1);
    }

    twostate lemma ListsStayComplete()
      requires made == old(made) && polled == old(polled) && ListsStay(old(spots.Keys), old(runList))
      requires forall t :: t in made ==> t.live == old(t.live) && t.stat == old(t.stat)
      ensures old(Complete()) ==> Complete()
    {
    }
  }
}
