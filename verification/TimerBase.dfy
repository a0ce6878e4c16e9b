/** CSLTimerBase: the timer object itself. Its methods are proved against the
    functions of TimerLife. */
module TimerBase {
  import opened TimerLife
  import opened WheelMath

  class CSLTimerBase {
    var stat: TimerState
    var pause: nat
    var live: bool         // m_pTimerObj is set; cleared when the memory is released
    var expire: nat
    var delaying: bool
    var count: int
    const interval: nat
    var recursion: int
    ghost var log: seq<Event>

    ghost function Value(): (l: Life)
      reads this
    {
      Life(stat, expire, pause, delaying, count, interval, log)
    }

    /** In use and with no callback on the stack. */
    ghost predicate Idle()
      reads this
    {
      live && recursion == 0
    }

    constructor (expire: nat, count: int, interval: nat)
      ensures Idle()
      ensures Value() == Life(TimerState.Recreate, expire, 0, true, count, interval, [])
    {
      this.stat, this.pause, this.live := TimerState.Recreate, 0, true;
      this.expire, this.delaying, this.count, this.interval := expire, true, count, interval;
      this.recursion, this.log := 0, [];
    }

    /** The object goes back to its pool. */
    method Release()
      requires live
      modifies this
      ensures !live
      ensures recursion == old(recursion)
      ensures Value() == old(Value()).(log := old(log) + [Event.Release])
    {
      live := false;
      log := log + [Event.Release];
    }

    method OnEnd(forced: bool)
      requires live && recursion >= 0
      modifies this
      ensures Value() == Ended(old(Value()), forced, recursion > 0)
      ensures recursion == old(recursion) && (live <==> recursion > 0)
    {
      stat := Destroy;
      log := log + [Terminate(forced)];
      if recursion <= 0 {
        Release();
      }
    }

    /** One call of the user's object, which may kill or pause this very timer: the
        timer is in no list at that time, so killTimer amounts to onEnd(true). */
    method Call(e: Event, does: Reaction)
      requires Idle() && (e.Start? || e.Time?)
      modifies this
      ensures Idle()
      ensures Value() == Called(old(Value()), e, does)
    {
      recursion := recursion + 1;
      log := log + [e];
      match does {
        case Nothing =>
        case KillsItself => OnEnd(true);
        case PausesItself => SetPaused(e.at);
      }
      recursion := recursion - 1;
    }

    method OnStart(now: nat, does: Reaction)
      requires Idle()
      modifies this
      ensures Idle()
      ensures Value() == Called(old(Value()), Start(now), does).(delaying := false)
    {
      Call(Start(now), does);
      delaying := false;
    }

    method OnTimer(now: nat, does: Reaction)
      requires Idle()
      modifies this
      ensures Idle()
      ensures Value() == Called(old(Value()), Time(now), does)
    {
      Call(Time(now), does);
    }

    method PollTimer(now: nat, does: Reaction) returns (verdict: TimerState)
      requires recursion == 0
      modifies this
      ensures old(live) ==> Idle() && (Value(), verdict) == Polled(old(Value()), now, does)
      ensures !old(live) ==> verdict == Destroy && Value() == old(Value()) && !live
    {
      if !live {
        return Destroy;
      }
      if delaying {
        OnStart(now, does);
        if stat == Destroy {
          return Destroy;
        }
        return TimerState.Recreate;
      }
      if count != 0 {
        OnTimer(now, does);
      }
      if stat == Destroy {
        return Destroy;
      }
      if count > 0 {
        count := count - 1;
      }
      if count == 0 {
        return Remove;
      }
      return TimerState.Recreate;
    }

    /** setTimerState and setPauseTime of pauseTimer. */
    method SetPaused(now: nat)
      modifies this`stat, this`pause
      ensures Value() == old(Value()).(stat := Paused, pause := now)
    {
      stat, pause := Paused, now;
    }

    /** setTimerState and setExpireTime of resumeTimer, in 64-bit arithmetic. */
    method SetResumed(now: nat)
      requires now < TWO_63 && expire < TWO_64 && pause <= now && interval < TWO_63
      modifies this`stat, this`expire
      ensures Value() == TimerLife.Step(old(Value()), Resume(now))
      ensures expire < TWO_64
    {
      stat := TimerState.Recreate;
      expire := (now + expire + TWO_64 - pause) % TWO_64;
    }

    method AdjustExpireTime(now: nat)
      requires expire < TWO_64 && now < TWO_64
      modifies this`expire
      ensures expire == Adjusted(old(expire), interval, now)
    {
      var late := Lateness(expire, now);
      if late > 0 && interval > 0 && late > interval {
        expire := Add64(expire, late / interval);
      }
    }

    /** What process does with a timer it has taken off the run list, up to
        putting it back: poll it, then reCreateTimer, endTimer or release. */
    method PollStep(now: nat, does: Reaction) returns (verdict: TimerState)
      requires Idle() && now < TWO_63 && expire < TWO_64 && interval < TWO_63
      modifies this
      ensures Value() == TimerLife.Step(old(Value()), Poll(now, does))
      ensures verdict == TimerState.Recreate <==> live
      ensures live ==> recursion == 0 && expire < TWO_64
      ensures old(stat) != Destroy ==> (live <==> stat != Destroy)
    {
      verdict := PollTimer(now, does);
      match verdict
      case Recreate =>
        expire := Add64(expire, interval);
        AdjustExpireTime(now);
      case Remove => OnEnd(false);
      case Destroy => Release();
      case Paused =>
    }
  }
}
