/** When timers have their callbacks, over the calls of process and over pauses. */
module WheelTimes {
  import opened WheelLives
  import opened WheelMath
  import L = TimerLife
  import WheelRuns

  /** So many ticks and nothing else. */
  ghost predicate OnlyTicks<T>(calls: seq<Call<T>>, n: int) {
    |calls| == n && forall i :: 0 <= i < |calls| ==> calls[i].Tick?
  }

  ghost function CallsOf<T>(ticks: seq<Call<T>>, does: seq<L.Reaction>, rounds: nat)
    : (calls: seq<Call<T>>)
    requires rounds <= |does|
  {
    ticks + Polls(does[..rounds])
  }

  /** One call of process: n ticks, then a poll of the head of the run list in each of the
      rounds. */
  ghost predicate IsTurn<T>(turn: seq<Call<T>>, n: int, does: seq<L.Reaction>, rounds: nat) {
    && 0 <= n <= |turn| && rounds <= |does|
    && OnlyTicks(turn[..n], n) && turn[n..] == Polls(does[..rounds])
  }

  ghost function Joined<T>(turns: seq<seq<Call<T>>>): (calls: seq<Call<T>>) {
    if turns == [] then [] else Joined(turns[..|turns| - 1]) + turns[|turns| - 1]
  }

  /** Calls of process from s on, the i-th of which makes the counter jiffies[i] and ends
      with its rounds or with the run list. */
  ghost predicate AreTurns<T>(s: World<T>, turns: seq<seq<Call<T>>>, jiffies: seq<nat>,
                              does: seq<seq<L.Reaction>>, rounds: seq<nat>) {
    && |turns| == |jiffies| == |rounds| <= |does|
    && forall i :: 0 <= i < |turns| ==> TurnAt(s, turns, jiffies, does, rounds, i)
  }

  ghost predicate TurnAt<T>(s: World<T>, turns: seq<seq<Call<T>>>, jiffies: seq<nat>,
                            does: seq<seq<L.Reaction>>, rounds: seq<nat>, i: nat)
    requires i < |turns| == |jiffies| == |rounds| <= |does|
  {
    var now: int, was: int := jiffies[i], if i == 0 then s.table.now else jiffies[i - 1];
    && IsTurn(turns[i], now - was, does[i], rounds[i])
    && (rounds[i] == |does[i]| || Run(s, Joined(turns[..i + 1])).queue == [])
  }

  lemma NoTurns<T>(s: World<T>, does: seq<seq<L.Reaction>>)
    ensures AreTurns(s, [], [], does, [])
    ensures Run(s, Joined([])) == s && AllPossible(s, Joined([]))
  {
  }

  lemma OneMoreTurn<T>(s: World<T>, turns: seq<seq<Call<T>>>, jiffies: seq<nat>,
                       does: seq<seq<L.Reaction>>, rounds: seq<nat>, turn: seq<Call<T>>, now: nat, n: nat)
    requires AreTurns(s, turns, jiffies, does, rounds) && |turns| < |does|
    requires IsTurn(turn, now - (if jiffies == [] then s.table.now else jiffies[|jiffies| - 1]), does[|turns|], n)
    requires n == |does[|turns|]| || Run(s, Joined(turns) + turn).queue == []
    ensures AreTurns(s, turns + [turn], jiffies + [now], does, rounds + [n])
    ensures Joined(turns + [turn]) == Joined(turns) + turn
  {
    hide IsTurn, Run;
    var k, more := |turns|, turns + [turn];
    assert more[..k] == turns && more[..k + 1] == more;
    forall i | 0 <= i < k
      ensures TurnAt(s, more, jiffies + [now], does, rounds + [n], i)
    {
      assert TurnAt(s, turns, jiffies, does, rounds, i) && more[..i + 1] == turns[..i + 1];
    }
  }

  // ----------------------------------------------------------------- the jiffies

  lemma {:induction false} TicksCount<T>(s: World<T>, calls: seq<Call<T>>, n: int)
    requires OnlyTicks(calls, n)
    ensures Run(s, calls).table.now == s.table.now + n
    decreases |calls|
  {
    if calls != [] {
      assert calls[0].Tick?;
      TicksCount(Do(s, calls[0]), calls[1..], n - 1);
    }
  }

  lemma {:induction false} PollsTakeNoTime<T>(s: World<T>, does: seq<L.Reaction>)
    ensures Run(s, Polls(does)).table.now == s.table.now
    decreases |does|
  {
    if does != [] {
      PollsStep(s, does);
      PollsTakeNoTime(Do(s, Poll(does[0])), does[1..]);
    }
  }

  lemma TurnCounts<T>(s: World<T>, turn: seq<Call<T>>, n: int, does: seq<L.Reaction>, rounds: nat)
    requires IsTurn(turn, n, does, rounds)
    ensures Run(s, turn[..n]).table.now == Run(s, turn).table.now == s.table.now + n
  {
    TicksCount(s, turn[..n], n);
    assert turn == turn[..n] + turn[n..];
    RunAppends(s, turn[..n], turn[n..]);
    PollsTakeNoTime(Run(s, turn[..n]), does[..rounds]);
  }

  /** The counter after i turns. */
  function Counter<T>(s: World<T>, jiffies: seq<nat>, i: nat): (now: nat)
    requires i <= |jiffies|
  {
    if i == 0 then s.table.now else jiffies[i - 1]
  }

  lemma {:induction false} TurnsCount<T>(s: World<T>, turns: seq<seq<Call<T>>>, jiffies: seq<nat>,
                                         does: seq<seq<L.Reaction>>, rounds: seq<nat>, i: nat)
    requires AreTurns(s, turns, jiffies, does, rounds) && i <= |turns|
    ensures Run(s, Joined(turns[..i])).table.now == Counter(s, jiffies, i)
  {
    if i > 0 {
      TurnsCount(s, turns, jiffies, does, rounds, i - 1);
      JoinsOne(turns, i - 1);
      var turn := turns[i - 1];
      assert TurnAt(s, turns, jiffies, does, rounds, i - 1);
      RunAppends(s, Joined(turns[..i - 1]), turn);
      TurnCounts(Run(s, Joined(turns[..i - 1])), turn, jiffies[i - 1] - Counter(s, jiffies, i - 1), does[i - 1],
                 rounds[i - 1]);
    }
  }

  lemma JoinsOne<T>(turns: seq<seq<Call<T>>>, i: nat)
    requires i < |turns|
    ensures Joined(turns[..i + 1]) == Joined(turns[..i]) + turns[i]
  {
    assert turns[..i + 1][..i] == turns[..i];
  }

  /** What happens first is possible, and what follows is possible then. */
  lemma {:induction false} PossibleFirst<T>(s: World<T>, calls: seq<Call<T>>, more: seq<Call<T>>)
    requires AllPossible(s, calls + more)
    ensures AllPossible(s, calls) && AllPossible(Run(s, calls), more)
    decreases |calls|
  {
    if calls == [] {
      assert calls + more == more;
    } else {
      assert (calls + more)[1..] == calls[1..] + more;
      PossibleFirst(Do(s, calls[0]), calls[1..], more);
    }
  }

  lemma {:induction false} TurnsBegin<T>(turns: seq<seq<Call<T>>>, i: nat) returns (rest: seq<Call<T>>)
    requires i <= |turns|
    ensures Joined(turns) == Joined(turns[..i]) + rest
    decreases |turns| - i
  {
    if i == |turns| {
      assert turns[..i] == turns;
      rest := [];
    } else {
      rest := TurnsBegin(turns, i + 1);
      JoinsOne(turns, i);
      rest := turns[i] + rest;
    }
  }

  lemma {:induction false} TicksDoNothing<T>(s: World<T>, calls: seq<Call<T>>, n: int, t: T)
    requires OnlyTicks(calls, n)
    ensures Past(s, calls, t) == []
    decreases |calls|
  {
    if calls != [] {
      assert calls[0].Tick?;
      TicksDoNothing(Do(s, calls[0]), calls[1..], n - 1, t);
    }
  }

  /** As long as nothing happens in its life a timer is as it was. */
  lemma {:induction false} LivesOn<T>(s: World<T>, calls: seq<Call<T>>, t: T)
    requires AllPossible(s, calls) && t in s.lives && Past(s, calls, t) == []
    ensures t in Run(s, calls).lives && Run(s, calls).lives[t] == s.lives[t]
    decreases |calls|
  {
    if calls != [] {
      DoesLife(s, calls[0], t);
      LivesOn(Do(s, calls[0]), calls[1..], t);
    }
  }

  predicate TicksAndPolls<T>(calls: seq<Call<T>>) {
    forall i :: 0 <= i < |calls| ==> calls[i].Tick? || calls[i].Poll?
  }

  lemma {:induction false} TurnsLeaveAlone<T>(s: World<T>, turns: seq<seq<Call<T>>>, jiffies: seq<nat>,
                                              does: seq<seq<L.Reaction>>, rounds: seq<nat>, i: nat)
    requires AreTurns(s, turns, jiffies, does, rounds) && i <= |turns|
    ensures TicksAndPolls(Joined(turns[..i]))
    ensures i < |turns| ==> TicksAndPolls(turns[i])
  {
    if i > 0 {
      TurnsLeaveAlone(s, turns, jiffies, does, rounds, i - 1);
      JoinsOne(turns, i - 1);
    }
    if i < |turns| {
      assert TurnAt(s, turns, jiffies, does, rounds, i);
      var n := jiffies[i] - Counter(s, jiffies, i);
      assert turns[i] == turns[i][..n] + turns[i][n..];
    }
  }

  lemma OthersLeftAlone<T>(calls: seq<Call<T>>, t: T)
    requires TicksAndPolls(calls)
    ensures LeavesAlone(calls, t)
  {
  }

  // -------------------------------------------------------------- calls of process

  /** After a call that brings the counter no further than the expiry of a waiting timer,
      nothing has happened to it. */
  lemma StillWaits<T>(s: World<T>, turns: seq<seq<Call<T>>>, jiffies: seq<nat>, does: seq<seq<L.Reaction>>,
                      rounds: seq<nat>, t: T, i: nat)
    requires Inv(s) && AllPossible(s, Joined(turns)) && AreTurns(s, turns, jiffies, does, rounds)
    requires Waits(s, t) && i <= |turns| && Counter(s, jiffies, i) <= s.lives[t].expire
    ensures var r := Run(s, Joined(turns[..i]));
            Waits(r, t) && t !in r.queue && r.lives[t] == s.lives[t] && Past(s, Joined(turns[..i]), t) == []
  {
    hide Inv, AllPossible, AreTurns, Waits;
    var calls := Joined(turns[..i]);
    var rest := TurnsBegin(turns, i);
    PossibleFirst(s, calls, rest);
    TurnsCount(s, turns, jiffies, does, rounds, i);
    TurnsLeaveAlone(s, turns, jiffies, does, rounds, i);
    OthersLeftAlone(calls, t);
    WaitingLives(s, t);
    PolledOnlyWhenDue(s, calls, t);
    LivesOn(s, calls, t);
    RunKeeps(s, calls);
    WaitingLives(Run(s, calls), t);
  }

  lemma WaitingLives<T>(s: World<T>, t: T)
    ensures Waits(s, t) ==> t in s.lives
    ensures Inv(s) && Waits(s, t) ==> t !in s.queue
  {
    if Inv(s) && Waits(s, t) {
      assert WaitsWell(s, t);
    }
  }

  /** In the first call that brings the counter past the expiry of a waiting timer it gets
      on the run list, before any poll of that call. */
  lemma ReadyInCall<T>(s: World<T>, turns: seq<seq<Call<T>>>, jiffies: seq<nat>, does: seq<seq<L.Reaction>>,
                       rounds: seq<nat>, t: T, i: nat)
    requires Inv(s) && AllPossible(s, Joined(turns)) && AreTurns(s, turns, jiffies, does, rounds)
    requires Waits(s, t) && i < |turns| && Counter(s, jiffies, i) <= s.lives[t].expire < jiffies[i]
    ensures var n := jiffies[i] - Counter(s, jiffies, i);
            && n <= |turns[i]|
            && var r := Run(s, Joined(turns[..i]) + turns[i][..n]);
               t in r.queue && t in r.lives && r.lives[t] == s.lives[t]
  {
    hide Inv, AllPossible, Waits;
    var before, n := Joined(turns[..i]), jiffies[i] - Counter(s, jiffies, i);
    var w := Run(s, before);
    assert TurnAt(s, turns, jiffies, does, rounds, i);
    var ticks, polls := turns[i][..n], turns[i][n..];
    assert turns[i] == ticks + polls;
    StillWaits(s, turns, jiffies, does, rounds, t, i);
    TurnsCount(s, turns, jiffies, does, rounds, i);
    PossibleTurn(s, turns, i);
    PossibleFirst(w, ticks, polls);
    RunAppends(s, before, ticks);
    RunKeeps(s, before);
    TicksCount(w, ticks, n);
    TicksDoNothing(w, ticks, n, t);
    OthersLeftAlone(ticks, t);
    WaitingLives(w, t);
    PolledOnlyWhenDue(w, ticks, t);
    LivesOn(w, ticks, t);
  }

  lemma PossibleTurn<T>(s: World<T>, turns: seq<seq<Call<T>>>, i: nat)
    requires AllPossible(s, Joined(turns)) && i < |turns|
    ensures AllPossible(s, Joined(turns[..i])) && AllPossible(Run(s, Joined(turns[..i])), turns[i])
  {
    hide AllPossible;
    var rest := TurnsBegin(turns, i + 1);
    PossibleFirst(s, Joined(turns[..i + 1]), rest);
    JoinsOne(turns, i);
    PossibleFirst(s, Joined(turns[..i]), turns[i]);
  }

  /** After the i-th call the timer has had no callback and is not on the run list. */
  ghost predicate NothingYet<T>(s: World<T>, turns: seq<seq<Call<T>>>, t: T, i: nat)
    requires i < |turns|
  {
    var r := Run(s, Joined(turns[..i + 1]));
    t !in r.queue && t in r.lives && r.lives[t].log == []
  }

  /** After the ticks of the i-th call the timer is on the run list, and has had no
      callback. */
  ghost predicate GetsReady<T>(s: World<T>, turns: seq<seq<Call<T>>>, jiffies: seq<nat>, t: T, i: nat)
    requires i < |turns| == |jiffies|
  {
    var now: int, was: int := jiffies[i], Counter(s, jiffies, i);
    && 0 <= now - was <= |turns[i]|
    && var r := Run(s, Joined(turns[..i]) + turns[i][..now - was]);
       t in r.queue && t in r.lives && r.lives[t].log == []
  }

  lemma NotInCall<T>(s: World<T>, turns: seq<seq<Call<T>>>, jiffies: seq<nat>, does: seq<seq<L.Reaction>>,
                     rounds: seq<nat>, t: T, i: nat)
    requires Inv(s) && AllPossible(s, Joined(turns)) && AreTurns(s, turns, jiffies, does, rounds)
    requires Waits(s, t) && s.lives[t].log == [] && i < |turns| && jiffies[i] <= s.lives[t].expire
    ensures NothingYet(s, turns, t, i)
  {
    hide Inv, AllPossible;
    StillWaits(s, turns, jiffies, does, rounds, t, i + 1);
  }

  lemma InCall<T>(s: World<T>, turns: seq<seq<Call<T>>>, jiffies: seq<nat>, does: seq<seq<L.Reaction>>,
                  rounds: seq<nat>, t: T, i: nat)
    requires Inv(s) && AllPossible(s, Joined(turns)) && AreTurns(s, turns, jiffies, does, rounds)
    requires Waits(s, t) && s.lives[t].log == [] && i < |turns|
    requires Counter(s, jiffies, i) <= s.lives[t].expire < jiffies[i]
    ensures GetsReady(s, turns, jiffies, t, i)
  {
    hide Inv, AllPossible, AreTurns, Waits, Joined, Run;
    Lengths(s, turns, jiffies, does, rounds);
    ReadyInCall(s, turns, jiffies, does, rounds, t, i);
  }

  /** The first callback of a waiting timer, over calls of process. */
  lemma FirstCallback<T>(s: World<T>, turns: seq<seq<Call<T>>>, jiffies: seq<nat>, does: seq<seq<L.Reaction>>,
                         rounds: seq<nat>, t: T)
    requires Inv(s) && AllPossible(s, Joined(turns)) && AreTurns(s, turns, jiffies, does, rounds)
    requires Waits(s, t) && s.lives[t].log == []
    ensures forall i :: 0 <= i < |turns| && jiffies[i] <= s.lives[t].expire ==> NothingYet(s, turns, t, i)
    ensures forall i :: 0 <= i < |turns| && Counter(s, jiffies, i) <= s.lives[t].expire < jiffies[i] ==>
              GetsReady(s, turns, jiffies, t, i)
  {
    hide Inv, AllPossible, NothingYet, GetsReady;
    forall i | 0 <= i < |turns| && jiffies[i] <= s.lives[t].expire
      ensures NothingYet(s, turns, t, i)
    {
      NotInCall(s, turns, jiffies, does, rounds, t, i);
    }
    forall i | 0 <= i < |turns| && Counter(s, jiffies, i) <= s.lives[t].expire < jiffies[i]
      ensures GetsReady(s, turns, jiffies, t, i)
    {
      InCall(s, turns, jiffies, does, rounds, t, i);
    }
  }

  lemma Lengths<T>(s: World<T>, turns: seq<seq<Call<T>>>, jiffies: seq<nat>, does: seq<seq<L.Reaction>>,
                   rounds: seq<nat>)
    requires AreTurns(s, turns, jiffies, does, rounds)
    ensures |turns| == |jiffies| == |rounds| <= |does|
  {
  }

  // -------------------------------------------------------------------- pauses

  /** A timer paused at some time and resumed at another, and not polled in between, is
      polled that much later than it would have been: not up to then, and from the tick
      behind it on it is on the run list until it is. */
  lemma RestIsKept<T>(p: World<T>, calls: seq<Call<T>>, more: seq<Call<T>>, t: T)
    requires Inv(p) && Alive(p, t) && p.lives[t].stat.Paused?
    requires AllPossible(p, calls) && Past(p, calls, t) == []
    requires AllPossible(Do(Run(p, calls), Resume(t)), more) && LeavesAlone(more, t)
    ensures var q := Run(p, calls);
            var r := Do(q, Resume(t));
            var z := Run(r, more);
            var due := p.lives[t].expire + q.table.now - p.lives[t].pause;
            && t in r.lives && r.lives[t].expire == due
            && r.lives[t] == p.lives[t].(stat := L.Recreate, expire := r.lives[t].expire)
            && if q.table.now < due && z.table.now <= due then Past(r, more, t) == [] && t !in z.queue
               else Past(r, more, t) == [] ==> t in z.queue
  {
    var q := Run(p, calls);
    LivesOn(p, calls, t);
    RunKeeps(p, calls);
    ResumedIs(q, t);
    var r := Do(q, Resume(t));
    hide Inv, AllPossible, Do;
    if q.table.now < r.lives[t].expire {
      PolledOnlyWhenDue(r, more, t);
      RunKeeps(r, more);
      WaitingLives(Run(r, more), t);
    } else {
      StaysQueued(r, more, t);
    }
  }

  lemma ResumedIs<T>(q: World<T>, t: T)
    requires Inv(q) && Alive(q, t) && q.lives[t].stat.Paused?
    ensures var r := Do(q, Resume(t));
            var due := q.lives[t].expire + q.table.now - q.lives[t].pause;
            && Inv(r) && t in r.lives && r.lives[t].expire == due
            && r.lives[t] == q.lives[t].(stat := L.Recreate, expire := r.lives[t].expire)
            && r.table.now == q.table.now
            && (if q.table.now < due then Waits(r, t) else t in r.table.ready)
  {
    DoKeeps(q, Resume(t));
    OwnStep(q, Resume(t), t);
    L.ResumeKeepsRest(q.lives[t], q.table.now, q.table.now);
  }

  /** Paused from outside, the timer has its expiry moved by the time it was paused. */
  lemma PausedAndResumed<T>(s: World<T>, calls: seq<Call<T>>, more: seq<Call<T>>, t: T)
    requires Inv(s) && Alive(s, t)
    requires AllPossible(Do(s, Pause(t)), calls) && Past(Do(s, Pause(t)), calls, t) == []
    requires AllPossible(Do(Run(Do(s, Pause(t)), calls), Resume(t)), more) && LeavesAlone(more, t)
    ensures var q := Run(Do(s, Pause(t)), calls);
            var r := Do(q, Resume(t));
            var z := Run(r, more);
            var due := s.lives[t].expire + q.table.now - s.table.now;
            && t in r.lives && r.lives[t].expire == due && Alive(r, t)
            && if q.table.now < due && z.table.now <= due then Past(r, more, t) == [] && t !in z.queue
               else Past(r, more, t) == [] ==> t in z.queue
  {
    DoKeeps(s, Pause(t));
    OwnStep(s, Pause(t), t);
    RestIsKept(Do(s, Pause(t)), calls, more, t);
  }

  /** So has one that pauses itself in a callback, unless that was its last. */
  lemma PausesItselfAndResumed<T>(s: World<T>, calls: seq<Call<T>>, more: seq<Call<T>>, t: T)
    requires Inv(s) && s.queue != [] && s.queue[0] == t && Alive(s, t)
    requires s.lives[t].delaying || s.lives[t].count !in {0, 1}
    requires var p := Do(s, Poll(L.PausesItself));
             AllPossible(p, calls) && Past(p, calls, t) == []
    requires AllPossible(Do(Run(Do(s, Poll(L.PausesItself)), calls), Resume(t)), more) && LeavesAlone(more, t)
    ensures var p := Do(s, Poll(L.PausesItself));
            var q := Run(p, calls);
            var r := Do(q, Resume(t));
            var z := Run(r, more);
            && Alive(p, t)
            && var due := p.lives[t].expire + q.table.now - s.table.now;
               && t in r.lives && r.lives[t].expire == due && Alive(r, t)
               && if q.table.now < due && z.table.now <= due then Past(r, more, t) == [] && t !in z.queue
                  else Past(r, more, t) == [] ==> t in z.queue
  {
    DoKeeps(s, Poll(L.PausesItself));
    OwnStep(s, Poll(L.PausesItself), t);
    RestIsKept(Do(s, Poll(L.PausesItself)), calls, more, t);
  }
}
