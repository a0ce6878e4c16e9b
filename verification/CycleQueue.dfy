/** The single-producer, single-consumer ring of slcycle_queue.h: `size` slots, of
    which one always stays free. */
module Ring {

  function Next(i: nat, size: nat): (n: nat)
    requires i < size
    ensures n == (if i + 1 < size then i + 1 else 0)
  {
    (i + 1) % size
  }

  predicate IsEmpty(front: nat, tail: nat) {
    front == tail
  }

  predicate IsFull(front: nat, tail: nat, size: nat)
    requires tail < size
  {
    front == Next(tail, size)
  }

  /** The slot holds something that has been pushed and not read. */
  predicate Occupied(front: nat, tail: nat, i: nat) {
    if front <= tail then front <= i < tail else front <= i || i < tail
  }

  /** What is queued, oldest first. */
  function Queued<T>(slots: seq<T>, front: nat, tail: nat): (q: seq<T>)
    requires front < |slots| && tail < |slots|
    ensures q == [] <==> IsEmpty(front, tail)
    ensures |q| < |slots|
    ensures |q| == |slots| - 1 <==> IsFull(front, tail, |slots|)
  {
    if front <= tail then slots[front..tail] else slots[front..] + slots[..tail]
  }

  lemma ReadTakesOldest<T>(slots: seq<T>, front: nat, tail: nat)
    requires front < |slots| && tail < |slots| && !IsEmpty(front, tail)
    ensures Queued(slots, front, tail) == [slots[front]] + Queued(slots, Next(front, |slots|), tail)
    ensures !IsFull(Next(front, |slots|), tail, |slots|)
  {
  }

  lemma PushAppends<T>(slots: seq<T>, front: nat, tail: nat, t: T)
    requires front < |slots| && tail < |slots| && !IsFull(front, tail, |slots|)
    ensures Queued(slots[tail := t], front, Next(tail, |slots|)) == Queued(slots, front, tail) + [t]
  {
  }

  /** Writing the free slot before the tail moves is not visible to the reader. */
  lemma WriteIsInvisible<T>(slots: seq<T>, front: nat, tail: nat, t: T)
    requires front < |slots| && tail < |slots|
    ensures Queued(slots[tail := t], front, tail) == Queued(slots, front, tail)
  {
  }

  class CycleQueue<T(0)> {
    const queue: array<T>
    var front: nat
    var tail: nat

    ghost predicate Valid()
      reads this
    {
      front < queue.Length && tail < queue.Length
    }

    ghost function Contents(): (q: seq<T>)
      requires Valid()
      reads this, queue
    {
      Queued(queue[..], front, tail)
    }

    constructor (size: nat)
      ensures Valid() && Contents() == [] && queue.Length == size + 1 && fresh(queue)
    {
      front, tail := 0, 0;
      queue := new T[size + 1];
    }

    method Read(otherwise: T) returns (ok: bool, t: T)
      requires Valid()
      modifies this`front
      ensures Valid() && ok == (old(Contents()) != [])
      ensures if ok then old(Contents()) == [t] + Contents() else t == otherwise && Contents() == []
    {
      if IsEmpty(front, tail) {
        return false, otherwise;
      }
      ReadTakesOldest(queue[..], front, tail);
      t := queue[front];
      front := Next(front, queue.Length);
      ok := true;
    }

    /** n times the other thread reads. */
    method TakeUpTo(n: nat) returns (ghost taken: seq<T>)
      requires Valid()
      modifies this`front
      ensures Valid() && taken + Contents() == old(Contents())
      ensures |taken| == if n <= |old(Contents())| then n else |old(Contents())|
    {
      hide Queued;
      taken := [];
      var i := 0;
      while i < n && !IsEmpty(front, tail)
        invariant Valid() && i <= n && |taken| == i && taken + Contents() == old(Contents())
      {
        ghost var was := Contents();
        var ok, t := Read(queue[front]);
        assert taken + [t] + Contents() == taken + was;
        taken := taken + [t];
        i := i + 1;
      }
    }

    /** A full ring makes push sleep, and look again after each nap; naps says how often
        the other thread reads during each of them. The element is appended as soon as
        something has been read. When the naps are over and nothing has been, push has not
        returned: `done` is false, and the ring is as it was. */
    method Push(t: T, naps: seq<nat>) returns (done: bool, ghost taken: seq<T>)
      requires Valid()
      modifies this`front, this`tail, queue
      ensures Valid() && taken <= old(Contents())
      ensures Contents() == old(Contents())[|taken|..] + (if done then [t] else [])
      ensures taken != [] ==> done && |old(Contents())| == queue.Length - 1
      ensures done == (|old(Contents())| < queue.Length - 1
                       || (queue.Length > 1 && exists i :: 0 <= i < |naps| && naps[i] > 0))
    {
      hide Queued;
      taken := [];
      var i := 0;
      while IsFull(front, tail, queue.Length)
        invariant Valid() && i <= |naps| && taken + Contents() == old(Contents())
        invariant taken != [] ==> |old(Contents())| == queue.Length - 1 && i > 0 && naps[i - 1] > 0
        invariant queue.Length > 1 && taken == [] ==> forall j :: 0 <= j < i ==> naps[j] == 0
        decreases |naps| - i
      {
        if i == |naps| {
          return false, taken;
        }
        taken := TakeUpTo(naps[i]);
        i := i + 1;
      }
      Append(t);
      done := true;
    }

    method Append(t: T)
      requires Valid() && |Contents()| < queue.Length - 1
      modifies this`tail, queue
      ensures Valid() && Contents() == old(Contents()) + [t]
    {
      PushAppends(queue[..], front, tail, t);
      ghost var slots := queue[..];
      queue[tail] := t;
      assert queue[..] == slots[tail := t];
      tail := Next(tail, queue.Length);
    }
  }
}
