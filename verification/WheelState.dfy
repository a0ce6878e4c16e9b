/** The slot lists of the whole wheel and the ghost map that says, for every
    waiting timer, where it is and what it is owed. */
module WheelState {
  import opened Sequences
  import opened WheelMath

  datatype Spot = Spot(entry: Entry, place: Place)

  predicate OnWheel(p: Place) {
    p.gear < 5 && p.slot < Size(p.gear)
  }

  predicate Shape<T>(slots: seq<seq<seq<T>>>) {
    |slots| == 5 && forall k :: 0 <= k < 5 ==> |slots[k]| == Size(k)
  }

  function At<T>(slots: seq<seq<seq<T>>>, p: Place): (list: seq<T>)
    requires Shape(slots) && OnWheel(p)
  {
    slots[p.gear][p.slot]
  }

  function Put<T>(slots: seq<seq<seq<T>>>, p: Place, list: seq<T>): (r: seq<seq<seq<T>>>)
    requires Shape(slots) && OnWheel(p)
    ensures Shape(r) && At(r, p) == list
    ensures forall q: Place {:trigger At(r, q)} :: OnWheel(q) && q != p ==> At(r, q) == At(slots, q)
  {
    slots[p.gear := slots[p.gear][p.slot := list]]
  }

  /** Every waiting timer is in exactly the list the map names, once, and the
      lists hold nothing else. */
  ghost predicate Located<T>(slots: seq<seq<seq<T>>>, spots: map<T, Spot>) {
    && Shape(slots)
    && (forall t :: t in spots ==> OnWheel(spots[t].place) && t in At(slots, spots[t].place))
    && (forall p: Place, t {:trigger t in At(slots, p)} ::
          OnWheel(p) && t in At(slots, p) ==> t in spots && spots[t].place == p)
    && (forall p: Place {:trigger At(slots, p)} :: OnWheel(p) ==> NoDup(At(slots, p)))
  }

  ghost predicate AllTimely<T>(done: seq<nat>, spots: map<T, Spot>) {
    |done| == 5 && forall t :: t in spots ==> Timely(done, spots[t].entry, spots[t].place)
  }

  lemma PushLocated<T>(slots: seq<seq<seq<T>>>, spots: map<T, Spot>, t: T, spot: Spot)
    requires Located(slots, spots) && OnWheel(spot.place) && t !in spots
    ensures Located(Put(slots, spot.place, At(slots, spot.place) + [t]), spots[t := spot])
  {
    var p, list := spot.place, At(slots, spot.place);
    var after, grown := Put(slots, p, list + [t]), spots[t := spot];
    forall s | s in grown
      ensures s in At(after, grown[s].place)
    {
      if s != t {
        assert s in At(slots, spots[s].place);
      } else {
        assert (list + [t])[|list|] == t;
      }
    }
    assert NoDup(list + [t]) by {
      assert t !in At(slots, p);
    }
  }

  /** The timers of one list that are not kept leave the map. */
  ghost function Leaving<T>(spots: map<T, Spot>, p: Place, kept: seq<T>): (r: map<T, Spot>) {
    map t | t in spots && (spots[t].place == p ==> t in kept) :: spots[t]
  }

  lemma ReplaceLocated<T>(slots: seq<seq<seq<T>>>, spots: map<T, Spot>, p: Place, kept: seq<T>)
    requires Located(slots, spots) && OnWheel(p) && NoDup(kept)
    requires forall t :: t in kept ==> t in At(slots, p)
    ensures Located(Put(slots, p, kept), Leaving(spots, p, kept))
  {
  }

  /** Some step of the wheel is under way. It began with the timers of `before`
      waiting; now those in hand are in no list, those moved are on the run list
      and the rest wait still: none lost, none duplicated, no debt changed. */
  ghost predicate InFlight<T>(before: map<T, Spot>, after: map<T, Spot>, hand: seq<T>, moved: seq<T>) {
    && NoDup(hand) && NoDup(moved)
    && (forall t :: t in hand ==> t in before && t !in after && t !in moved)
    && (forall t :: t in moved ==> t in before && t !in after)
    && (forall t :: t in before && t !in hand && t !in moved ==> t in after)
    && (forall t :: t in after ==> t in before && after[t].entry == before[t].entry)
  }

  ghost predicate Transfer<T>(before: map<T, Spot>, after: map<T, Spot>, moved: seq<T>) {
    InFlight(before, after, [], moved)
  }

  /** The first timer in hand goes back to a slot, or to the run list. */
  lemma PutBack<T>(before: map<T, Spot>, after: map<T, Spot>, hand: seq<T>, moved: seq<T>, d: Dest)
    requires hand != [] && InFlight(before, after, hand, moved)
    ensures d.Slot? ==>
              InFlight(before, after[hand[0] := Spot(before[hand[0]].entry, d.place)], hand[1..], moved)
    ensures d.RunList? ==> InFlight(before, after, hand[1..], moved + [hand[0]])
  {
    var t := hand[0];
    assert t in hand;
    forall s | s in hand && s != t
      ensures s in hand[1..]
    {
      var i :| 0 <= i < |hand| && hand[i] == s;
      assert hand[1..][i - 1] == s;
    }
    assert forall s :: s in hand[1..] ==> s in hand && s != t;
  }

  /** The cascade at time now: the timers that moved expire now and were not put
      straight into the low gear. */
  ghost predicate HandedDown<T>(now: nat, before: map<T, Spot>, after: map<T, Spot>, moved: seq<T>) {
    && Transfer(before, after, moved)
    && forall t :: t in moved ==> before[t].entry.expire == now && !before[t].entry.direct
  }

  lemma HandedDownChain<T>(now: nat, a: map<T, Spot>, b: map<T, Spot>, c: map<T, Spot>, x: seq<T>, y: seq<T>)
    requires HandedDown(now, a, b, x) && HandedDown(now, b, c, y)
    ensures HandedDown(now, a, c, x + y)
  {
    TransferChain(a, b, c, x, y);
  }

  lemma LeavingInFlight<T>(slots: seq<seq<seq<T>>>, spots: map<T, Spot>, p: Place)
    requires Located(slots, spots) && OnWheel(p)
    ensures InFlight(spots, Leaving(spots, p, []), At(slots, p), [])
    ensures forall t :: t in At(slots, p) ==> t in spots && spots[t].place == p
  {
  }

  /** Timers a high gear may hand down at time now. */
  ghost predicate Givable<T>(now: nat, spots: map<T, Spot>, list: seq<T>) {
    forall t :: t in list ==>
      t in spots && !spots[t].entry.direct && now <= spots[t].entry.expire && Fits(now, spots[t].entry)
  }

  /** The lists and the ghost map agree, nobody is late and nobody is both
      waiting and on the run list. */
  ghost predicate Sound<T>(slots: seq<seq<seq<T>>>, spots: map<T, Spot>, passed: seq<nat>, run: seq<T>) {
    && Located(slots, spots)
    && AllTimely(passed, spots)
    && NoDup(run)
    && (forall t :: t in run ==> t !in spots)
  }

  /** A high gear passes a slot: the timers in it come out, all of them able to
      be scheduled again, and nobody else is disturbed. */
  lemma PassSlot<T>(slots: seq<seq<seq<T>>>, spots: map<T, Spot>, passed: seq<nat>, run: seq<T>,
                    now: nat, k: nat)
    requires Sound(slots, spots, passed, run) && Aligned(now, passed)
    requires 1 <= k < 5 && now == StartOf(k, passed[k])
    ensures var p := Place(k, passed[k] % 64);
            && Sound(Put(slots, p, []), Leaving(spots, p, []), passed[k := passed[k] + 1], run)
            && Givable(now, spots, At(slots, p))
            && InFlight(spots, Leaving(spots, p, []), At(slots, p), [])
  {
    var p := Place(k, passed[k] % 64);
    LeavingInFlight(slots, spots, p);
    ReplaceLocated(slots, spots, p, []);
    forall t | t in Leaving(spots, p, [])
      ensures Timely(passed[k := passed[k] + 1], spots[t].entry, spots[t].place)
    {
      PassingKeepsTimely(passed, k, spots[t].entry, spots[t].place);
    }
    forall t | t in At(slots, p)
      ensures !spots[t].entry.direct && now <= spots[t].entry.expire && Fits(now, spots[t].entry)
    {
      PassedCanBeScheduled(now, passed, k, spots[t].entry);
    }
  }

  /** A timer goes into the slot its entry asks for. */
  lemma PushSound<T>(slots: seq<seq<seq<T>>>, spots: map<T, Spot>, passed: seq<nat>, run: seq<T>,
                     now: nat, t: T, e: Entry)
    requires Sound(slots, spots, passed, run) && Aligned(now, passed)
    requires t !in spots && t !in run && now < e.expire && Fits(now, e)
    ensures var p := FindTimerList(now, e.expire).place;
            Sound(Put(slots, p, At(slots, p) + [t]), spots[t := Spot(e, p)], passed, run)
  {
    var p := FindTimerList(now, e.expire).place;
    ScheduledIsTimely(now, passed, e);
    PushLocated(slots, spots, t, Spot(e, p));
  }

  /** The two lists the first n timers of a slot are sorted into when the low
      gear drains it. */
  function Kept<T(==)>(list: seq<T>, paused: set<T>, n: nat): (r: seq<T>)
    requires n <= |list|
  {
    if n == 0 then []
    else Kept(list, paused, n - 1) + (if list[n - 1] in paused then [list[n - 1]] else [])
  }

  function Released<T(==)>(list: seq<T>, paused: set<T>, n: nat): (r: seq<T>)
    requires n <= |list|
  {
    if n == 0 then []
    else Released(list, paused, n - 1) + (if list[n - 1] in paused then [] else [list[n - 1]])
  }

  lemma NothingSifted<T>(list: seq<T>, paused: set<T>)
    ensures Kept(list, paused, 0) == Released(list, paused, 0) == []
  {
  }

  lemma OneSifted<T>(list: seq<T>, paused: set<T>, i: nat)
    requires i < |list|
    ensures Kept(list, paused, i + 1) == Kept(list, paused, i) + (if list[i] in paused then [list[i]] else [])
    ensures Released(list, paused, i + 1) == Released(list, paused, i) + (if list[i] in paused then [] else [list[i]])
  {
  }

  lemma {:induction false} SiftedFrom<T>(list: seq<T>, paused: set<T>, n: nat)
    requires n <= |list|
    ensures forall t :: t in Kept(list, paused, n) ==> t in list && t in paused
    ensures forall t :: t in Released(list, paused, n) ==> t in list && t !in paused
  {
    if n > 0 {
      SiftedFrom(list, paused, n - 1);
    }
  }

  lemma {:induction false} SiftCovers<T>(list: seq<T>, paused: set<T>, n: nat, i: nat)
    requires i < n <= |list|
    ensures list[i] in paused ==> list[i] in Kept(list, paused, n)
    ensures list[i] !in paused ==> list[i] in Released(list, paused, n)
  {
    if i < n - 1 {
      SiftCovers(list, paused, n - 1, i);
    }
  }

  function PausedAmong<T(==)>(list: seq<T>, paused: set<T>): (k: nat)
    ensures k <= |list|
  {
    if list == [] then 0
    else PausedAmong(list[..|list| - 1], paused) + (if list[|list| - 1] in paused then 1 else 0)
  }

  /** Both lists are in the order of the slot: a timer stands behind those of its kind that
      were before it. */
  lemma {:induction false} SiftInOrder<T>(list: seq<T>, paused: set<T>, n: nat, i: nat)
    requires i <= n <= |list|
    ensures var k, m := PausedAmong(list[..i], paused), PausedAmong(list[..n], paused);
            && |Kept(list, paused, n)| == m && |Released(list, paused, n)| == n - m
            && (i < n && list[i] in paused ==> k < m && Kept(list, paused, n)[k] == list[i])
            && (i < n && list[i] !in paused ==> 0 <= i - k < n - m && Released(list, paused, n)[i - k] == list[i])
    decreases n
  {
    if n > 0 {
      assert list[..n][..n - 1] == list[..n - 1];
      SiftInOrder(list, paused, n - 1, if i < n then i else n - 1);
    }
  }

  lemma {:induction false} SiftNoDup<T>(list: seq<T>, paused: set<T>, n: nat)
    requires NoDup(list) && n <= |list|
    ensures NoDup(Kept(list, paused, n)) && NoDup(Released(list, paused, n))
    ensures forall i :: n <= i < |list| ==>
              list[i] !in Kept(list, paused, n) && list[i] !in Released(list, paused, n)
  {
    hide Kept, Released;
    if n == 0 {
      NothingSifted(list, paused);
    } else {
      SiftNoDup(list, paused, n - 1);
      OneSifted(list, paused, n - 1);
      AppendNoDup(Kept(list, paused, n - 1), list[n - 1]);
      AppendNoDup(Released(list, paused, n - 1), list[n - 1]);
    }
  }

  lemma AppendNoDup<T>(l: seq<T>, t: T)
    requires NoDup(l) && t !in l
    ensures NoDup(l + [t])
  {
  }

  /** The low gear drains the slot of time now. */
  lemma DrainSound<T>(slots: seq<seq<seq<T>>>, spots: map<T, Spot>, passed: seq<nat>, run: seq<T>,
                      paused: set<T>, slot: nat)
    requires Sound(slots, spots, passed, run) && slot < 256
    ensures var p := Place(0, slot);
            var list := At(slots, p);
            var kept, released := Kept(list, paused, |list|), Released(list, paused, |list|);
            && Sound(Put(slots, p, kept), Leaving(spots, p, kept), passed[0 := passed[0] + 1], run + released)
            && Transfer(spots, Leaving(spots, p, kept), released)
            && (forall t :: t in released ==> spots[t].place == p && t !in paused)
            && (forall t :: t in spots && spots[t].place == p && t !in released ==> t in paused)
  {
    var p := Place(0, slot);
    var list := At(slots, p);
    SiftedFrom(list, paused, |list|);
    SiftNoDup(list, paused, |list|);
    forall t | t in list
      ensures t in paused ==> t in Kept(list, paused, |list|)
      ensures t !in paused ==> t in Released(list, paused, |list|)
    {
      var i :| 0 <= i < |list| && list[i] == t;
      SiftCovers(list, paused, |list|, i);
    }
    ReplaceLocated(slots, spots, p, Kept(list, paused, |list|));
    JoinNoDup(run, Released(list, paused, |list|));
  }

  /** Exactly the timers that are due move in a tick: x in the cascade at time
      now, y when the low gear drains its slot. */
  lemma TickMoves<T>(now: nat, before: map<T, Spot>, mid: map<T, Spot>, after: map<T, Spot>,
                     start: seq<nat>, passed: seq<nat>, x: seq<T>, y: seq<T>, paused: set<T>)
    requires AllTimely(start, before) && start[0] == now
    requires forall t :: t in before && before[t].entry.due < now ==> t in paused
    requires HandedDown(now, before, mid, x) && (x != [] ==> now % 256 == 0)
    requires AllTimely(passed, mid) && passed[0] == now && PassedFrom(now, passed, 1)
    requires Transfer(mid, after, y)
    requires forall t :: t in y ==> mid[t].place == Place(0, now % 256) && t !in paused
    requires forall t :: t in after && mid[t].place == Place(0, now % 256) ==> t in paused
    ensures Transfer(before, after, x + y)
    ensures forall t :: t in before ==> (t in x + y <==> MovesAt(now, before[t].entry, t in paused))
  {
    TransferChain(before, mid, after, x, y);
    forall t | t in before
      ensures t in x + y <==> MovesAt(now, before[t].entry, t in paused)
    {
      TickMovesOne(now, before, mid, after, start, passed, x, y, paused, t);
    }
  }

  lemma TickMovesOne<T>(now: nat, before: map<T, Spot>, mid: map<T, Spot>, after: map<T, Spot>,
                        start: seq<nat>, passed: seq<nat>, x: seq<T>, y: seq<T>, paused: set<T>, t: T)
    requires AllTimely(start, before) && start[0] == now && t in before
    requires before[t].entry.due < now ==> t in paused
    requires HandedDown(now, before, mid, x) && (x != [] ==> now % 256 == 0)
    requires AllTimely(passed, mid) && passed[0] == now && PassedFrom(now, passed, 1)
    requires Transfer(mid, after, y)
    requires t in y ==> mid[t].place == Place(0, now % 256) && t !in paused
    requires t in after && mid[t].place == Place(0, now % 256) ==> t in paused
    ensures t in x || t in y <==> MovesAt(now, before[t].entry, t in paused)
  {
    var e := before[t].entry;
    if t in x {
      assert Timely(start, e, before[t].place);
    } else {
      assert t in mid && mid[t].entry == e && Timely(passed, e, mid[t].place);
      if t in y {
        SameRemainder(now, e.due);
      } else if e.due == now {
        DueNowIsLow(now, passed, e, mid[t].place);
      }
    }
  }

  lemma SameRemainder(now: nat, due: nat)
    requires now <= due < now + 256 && due % 256 == now % 256
    ensures due == now
  {
  }

  lemma TransferChain<T>(a: map<T, Spot>, b: map<T, Spot>, c: map<T, Spot>, x: seq<T>, y: seq<T>)
    requires Transfer(a, b, x) && Transfer(b, c, y)
    ensures Transfer(a, c, x + y)
  {
    JoinNoDup(x, y);
  }

  lemma RemoveSound<T>(slots: seq<seq<seq<T>>>, spots: map<T, Spot>, passed: seq<nat>, run: seq<T>, t: T)
    requires Sound(slots, spots, passed, run) && t in spots
    ensures var p := spots[t].place;
            OnWheel(p) && Sound(Put(slots, p, Without(At(slots, p), t)), spots - {t}, passed, run)
  {
    var p := spots[t].place;
    WithoutNoDup(At(slots, p), t);
    ReplaceLocated(slots, spots, p, Without(At(slots, p), t));
    assert Leaving(spots, p, Without(At(slots, p), t)) == spots - {t};
  }

  lemma RemoveReady<T>(slots: seq<seq<seq<T>>>, spots: map<T, Spot>, passed: seq<nat>, run: seq<T>, t: T)
    requires Sound(slots, spots, passed, run) && t in run
    ensures Sound(slots, spots, passed, Without(run, t)) && t !in spots
  {
    WithoutNoDup(run, t);
  }
}
