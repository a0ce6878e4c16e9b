/** The arithmetic of the five-gear wheel: gear sizes, the slot a timer is put
    in, and what being in that slot at a given time says about the tick in which
    the timer falls due. Gear 0 is the source's m_gear1 (256 slots of one jiffy),
    gears 1 to 4 are m_gear2 to m_gear5 (64 slots each). */
module WheelMath {

  const TWO_63: nat := 0x8000_0000_0000_0000
  const TWO_64: nat := 0x1_0000_0000_0000_0000

  /** Number of slots of a gear. */
  function Size(gear: nat): (n: nat)
    ensures n == 256 || n == 64
  {
    if gear == 0 then 256 else 64
  }

  /** Jiffies covered by one slot of a gear: 1, 2^8, 2^14, 2^20, 2^26. */
  function Unit(gear: nat): (u: nat)
    ensures u > 0
  {
    if gear == 0 then 1
    else if gear == 1 then 256
    else if gear == 2 then 16384
    else if gear == 3 then 1048576
    else 67108864
  }

  /** The time at which the n-th slot of a gear begins. */
  function StartOf(gear: nat, n: nat): (time: nat) {
    if gear == 0 then n
    else if gear == 1 then 256 * n
    else if gear == 2 then 16384 * n
    else if gear == 3 then 1048576 * n
    else 67108864 * n
  }

  /** The number of the slot of a gear that a time falls in. */
  function IndexOf(gear: nat, time: nat): (n: nat)
    ensures StartOf(gear, n) <= time < StartOf(gear, n + 1)
  {
    if gear == 0 then time
    else if gear == 1 then time / 256
    else if gear == 2 then time / 16384
    else if gear == 3 then time / 1048576
    else time / 67108864
  }

  datatype Place = Place(gear: nat, slot: nat)
  datatype Dest = RunList | Slot(place: Place)

  /** The list a timer with this expiry is appended to. A distance of 2^63 or
      more is negative as a signed 64-bit number and goes to the low gear. */
  function FindTimerList(now: nat, expire: nat): (d: Dest)
    ensures d.RunList? <==> expire <= now
    ensures d.Slot? ==> d.place.gear < 5 && d.place.slot < Size(d.place.gear)
  {
    if expire <= now then RunList
    else
      var rest := expire - now;
      if rest < 256 then Slot(Place(0, expire % 256))
      else if rest < 16384 then Slot(Place(1, IndexOf(1, expire) % 64))
      else if rest < 1048576 then Slot(Place(2, IndexOf(2, expire) % 64))
      else if rest < 67108864 then Slot(Place(3, IndexOf(3, expire) % 64))
      else if rest >= TWO_63 then Slot(Place(0, expire % 256))
      else Slot(Place(4, IndexOf(4, expire) % 64))
  }

  /** The gear chosen is the lowest whose slots, one circle of them, reach the expiry, and
      the slot is the one the expiry falls in. */
  lemma LowestGearThatReaches(now: nat, expire: nat)
    requires now < expire < now + TWO_63
    ensures var p := FindTimerList(now, expire).place;
            && p.slot == IndexOf(p.gear, expire) % Size(p.gear)
            && (p.gear < 4 ==> expire - now < Unit(p.gear) * Size(p.gear))
            && (forall g: nat :: g < p.gear ==> Unit(g) * Size(g) <= expire - now)
  {
    var p := FindTimerList(now, expire).place;
    forall g: nat | g < p.gear
      ensures Unit(g) * Size(g) <= expire - now
    {
      assert g == 0 || g == 1 || g == 2 || g == 3;
    }
  }

  /** What the wheel owes a waiting timer: its expiry, the tick in which it is
      due, and whether it was put straight into the low gear. */
  datatype Entry = Entry(expire: nat, due: nat, direct: bool)

  /** The debt taken on when a timer is scheduled at time now. */
  function EntryFor(now: nat, expire: nat): (e: Entry)
    requires now < expire
    ensures e.expire == expire && now <= e.due <= expire
    ensures e.due == expire <==> expire - now < TWO_63
  {
    if expire - now < 256 then Entry(expire, expire, true)
    else if expire - now < TWO_63 then Entry(expire, expire, false)
    else Entry(expire, now + (expire - now) % 256, true)
  }

  /** The tick from now to now + 1 moves a waiting timer to the run list: it is
      due, and if it is paused it slips through by coming straight from a high
      gear. */
  predicate MovesAt(now: nat, e: Entry, paused: bool) {
    e.due == now && (!paused || (!e.direct && now % 256 == 0))
  }

  /** An entry that may be scheduled at time now: a new one, or one that a high
      gear gives up at a multiple of 256. */
  predicate Fits(now: nat, e: Entry) {
    now < e.expire ==>
      || e == EntryFor(now, e.expire)
      || (now % 256 == 0 && !e.direct && e.due == e.expire && e.expire - now < TWO_63)
  }

  /** passed[k] counts the slots gear k has passed: every slot that begins before
      now, and possibly the one that begins now while a tick is in progress. */
  predicate Aligned(now: nat, passed: seq<nat>) {
    && |passed| == 5
    && passed[0] == now
    && forall k :: 1 <= k < 5 ==> now <= StartOf(k, passed[k]) <= now + Unit(k)
  }

  /** The gears from `from` on have all passed the slot that begins now. */
  predicate PassedFrom(now: nat, passed: seq<nat>, from: nat) {
    |passed| == 5 && forall k :: from <= k < 5 ==> now < StartOf(k, passed[k])
  }

  /** The gears from `from` on have not. */
  predicate NotAheadFrom(now: nat, passed: seq<nat>, from: nat) {
    |passed| == 5 && forall k :: from <= k < 5 ==> StartOf(k, passed[k]) < now + Unit(k)
  }

  /** Being at place p is consistent with entry e. */
  predicate Timely(passed: seq<nat>, e: Entry, p: Place)
    requires |passed| == 5
  {
    if p.gear == 0 then
      && p.slot == e.due % 256
      && e.due < passed[0] + 256
      && (!e.direct ==> e.due == e.expire && e.due % 256 != 0)
      && (e.due == e.expire || e.expire >= TWO_63)
    else
      && p.gear < 5
      && !e.direct
      && e.due == e.expire < passed[0] + TWO_63
      && p.slot == IndexOf(p.gear, e.expire) % 64
      && passed[p.gear] <= IndexOf(p.gear, e.expire)
      && (p.gear < 4 ==> IndexOf(p.gear, e.expire) < passed[p.gear] + 64)
  }

  lemma StartOrder(k: nat, m: nat, n: nat)
    ensures m <= n <==> StartOf(k, m) <= StartOf(k, n)
    ensures StartOf(k, n + 1) == StartOf(k, n) + Unit(k)
    ensures StartOf(k, n + 64) == StartOf(k, n) + 64 * Unit(k)
  {
  }

  /** The gear chosen covers the distance to the expiry: at least one of its
      slots away, and fewer than 64 unless it is the top gear. */
  lemma GearCoversDistance(now: nat, expire: nat, k: nat)
    requires now < expire && FindTimerList(now, expire).place.gear == k > 0
    ensures k < 5 && expire - now < TWO_63
    ensures FindTimerList(now, expire).place.slot == IndexOf(k, expire) % 64
    ensures now + Unit(k) <= expire
    ensures k < 4 ==> expire < now + 64 * Unit(k)
  {
  }

  /** Scheduling puts a timer where its entry says. */
  lemma ScheduledIsTimely(now: nat, passed: seq<nat>, e: Entry)
    requires Aligned(now, passed) && Fits(now, e) && now < e.expire
    ensures FindTimerList(now, e.expire).Slot?
    ensures Timely(passed, e, FindTimerList(now, e.expire).place)
  {
    var k := FindTimerList(now, e.expire).place.gear;
    if k == 0 {
      ScheduledLow(now, e);
    } else {
      GearCoversDistance(now, e.expire, k);
      StartOrder(k, passed[k], IndexOf(k, e.expire));
      StartOrder(k, passed[k], IndexOf(k, e.expire) + 1);
      StartOrder(k, passed[k] + 64, IndexOf(k, e.expire));
      StartOrder(k, 0, passed[k]);
    }
  }

  lemma SameSlotAgain(now: nat, expire: nat)
    requires now <= expire
    ensures (now + (expire - now) % 256) % 256 == expire % 256
  {
  }

  lemma ScheduledLow(now: nat, e: Entry)
    requires Fits(now, e) && now < e.expire
    requires FindTimerList(now, e.expire).place.gear == 0
    ensures e.expire % 256 == e.due % 256
    ensures now <= e.due < now + 256
    ensures !e.direct ==> e.due == e.expire && e.due % 256 != 0
    ensures e.due == e.expire || e.expire >= TWO_63
  {
    SameSlotAgain(now, e.expire);
  }

  /** Passing a slot disturbs no timer outside that slot. */
  lemma PassingKeepsTimely(passed: seq<nat>, k: nat, e: Entry, p: Place)
    requires |passed| == 5 && 1 <= k < 5
    requires Timely(passed, e, p)
    requires p.gear == k ==> p.slot != passed[k] % 64
    ensures Timely(passed[k := passed[k] + 1], e, p)
  {
  }

  lemma PassingKeepsAligned(now: nat, passed: seq<nat>, k: nat)
    requires Aligned(now, passed) && 1 <= k < 5 && now == StartOf(k, passed[k])
    ensures Aligned(now, passed[k := passed[k] + 1])
    ensures now < StartOf(k, passed[k] + 1)
  {
    StartOrder(k, 0, passed[k]);
  }

  lemma HighStart(k: nat, n: nat)
    requires 1 <= k < 5
    ensures StartOf(k, n) % 256 == 0
  {
    MultipleOf256(if k == 1 then n else if k == 2 then 64 * n else if k == 3 then 4096 * n else 262144 * n);
  }

  lemma MultipleOf256(m: nat)
    ensures 256 * m % 256 == 0
  {
  }

  /** A timer in the slot a high gear is about to pass has not missed its time
      and can be scheduled again. */
  lemma PassedCanBeScheduled(now: nat, passed: seq<nat>, k: nat, e: Entry)
    requires Aligned(now, passed) && 1 <= k < 5
    requires now == StartOf(k, passed[k])
    requires Timely(passed, e, Place(k, passed[k] % 64))
    ensures now <= e.expire && e.due == e.expire && !e.direct
    ensures Fits(now, e)
  {
    StartOrder(k, passed[k], IndexOf(k, e.expire));
    HighStart(k, passed[k]);
  }

  /** The next gear turns exactly when the one below has come full circle. */
  lemma Carry(now: nat, passed: seq<nat>, k: nat)
    requires Aligned(now, passed) && NotAheadFrom(now, passed, k + 1) && k < 4
    requires now == StartOf(k, passed[k])
    ensures passed[k] % Size(k) == 0 <==> now == StartOf(k + 1, passed[k + 1])
  {
    assert now <= StartOf(k + 1, passed[k + 1]);
    if k == 0 { } else if k == 1 { } else if k == 2 { } else { }
  }

  /** When a gear is not due to turn, no gear above it is. */
  lemma NoFurtherCarry(now: nat, passed: seq<nat>, k: nat)
    requires Aligned(now, passed) && NotAheadFrom(now, passed, k) && 1 <= k < 5
    requires now != StartOf(k, passed[k])
    ensures PassedFrom(now, passed, k)
    decreases 5 - k
  {
    assert now <= StartOf(k, passed[k]);
    if k < 4 {
      assert now <= StartOf(k + 1, passed[k + 1]);
      StartsNest(k, passed[k], passed[k + 1]);
      NoFurtherCarry(now, passed, k + 1);
    }
  }

  lemma StartsNest(k: nat, m: nat, n: nat)
    requires 1 <= k < 4
    ensures !(StartOf(k, m) - Unit(k) < StartOf(k + 1, n) < StartOf(k, m))
  {
    assert StartOf(k + 1, n) == StartOf(k, 64 * n);
    StartOrder(k, 64 * n + 1, m);
    StartOrder(k, m, 64 * n);
    StartOrder(k, 0, 64 * n);
  }

  /** Once every high gear has passed time now, nobody due now is left in one. */
  lemma DueNowIsLow(now: nat, passed: seq<nat>, e: Entry, p: Place)
    requires PassedFrom(now, passed, 1) && Timely(passed, e, p) && e.due == now
    ensures p.gear == 0
  {
    if p.gear != 0 {
      assert now < StartOf(p.gear, passed[p.gear]);
      StartOrder(p.gear, passed[p.gear], IndexOf(p.gear, e.expire));
      assert false;
    }
  }

  /** A finished tick leaves the gears aligned with the new time. */
  lemma TickKeepsAligned(now: nat, passed: seq<nat>)
    requires Aligned(now, passed) && PassedFrom(now, passed, 1)
    ensures Aligned(now + 1, passed[0 := now + 1]) && NotAheadFrom(now + 1, passed[0 := now + 1], 1)
  {
  }
}
