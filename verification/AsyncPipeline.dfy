/** Main thread and worker of slasync_thread.cpp, joined by two rings. Each
    access to a shared index, slot or flag is one step; the steps of the two
    threads interleave in any way. */
module AsyncPipeline {
  import opened Ring

  type Task = nat

  /** A ring as the two threads see it. `unread` records which slots have been
      written and not yet copied out. */
  datatype Queue = Queue(slots: seq<Task>, unread: seq<bool>, front: nat, tail: nat)

  datatype Main =
    | Idle
    | AddCheck(t: Task) | AddWrite(t: Task) | AddBump(t: Task)       // add, push
    | LoopCheck | LoopCopy | LoopBump(t: Task) | Complete(t: Task)   // loop, read
    | Joining | Gone                                                 // terminate

  datatype Worker =
    | Top                                                  // while (!_terminate)
    | Look | Copy | TakeBump(t: Task)                      // read
    | Execute(t: Task)
    | PutCheck(t: Task) | PutWrite(t: Task) | PutBump(t: Task)  // push
    | Ended

  datatype System = System(run: Queue, comp: Queue, main: Main, worker: Worker, stop: bool,
                           added: seq<Task>, executed: seq<Task>, completed: seq<Task>)

  datatype Act =
    | Add(t: Task) | Loop | Terminate  // main thread, when it is at none of these
    | MainStep(timeUp: bool)           // timeUp: loop stops after this task
    | WorkerStep

  // -------------------------------------------------------------------- steps

  predicate Shaped(q: Queue) {
    |q.unread| == |q.slots| && q.front < |q.slots| && q.tail < |q.slots|
  }

  function Contents(q: Queue): (r: seq<Task>)
    requires Shaped(q)
  {
    Queued(q.slots, q.front, q.tail)
  }

  predicate Full(q: Queue)
    requires Shaped(q)
  {
    IsFull(q.front, q.tail, |q.slots|)
  }

  function WriteSlot(q: Queue, t: Task): (r: Queue)
    requires Shaped(q)
  {
    q.(slots := q.slots[q.tail := t], unread := q.unread[q.tail := true])
  }

  function BumpTail(q: Queue): (r: Queue)
    requires Shaped(q)
  {
    q.(tail := Next(q.tail, |q.slots|))
  }

  function CopySlot(q: Queue): (r: Queue)
    requires Shaped(q)
  {
    q.(unread := q.unread[q.front := false])
  }

  function BumpFront(q: Queue): (r: Queue)
    requires Shaped(q)
  {
    q.(front := Next(q.front, |q.slots|))
  }

  predicate Formed(s: System) {
    Shaped(s.run) && Shaped(s.comp)
  }

  /** The main thread goes on; a full ring or a running worker keeps it where it
      is. */
  function MoveMain(s: System, timeUp: bool): (r: System)
    requires Formed(s)
  {
    match s.main
    case AddCheck(t) => if Full(s.run) then s else s.(main := AddWrite(t))
    case AddWrite(t) => s.(main := AddBump(t), run := WriteSlot(s.run, t))
    case AddBump(t) => s.(main := Idle, run := BumpTail(s.run))
    case LoopCheck => s.(main := if IsEmpty(s.comp.front, s.comp.tail) then Idle else LoopCopy)
    case LoopCopy => s.(main := LoopBump(s.comp.slots[s.comp.front]), comp := CopySlot(s.comp))
    case LoopBump(t) => s.(main := Complete(t), comp := BumpFront(s.comp))
    case Complete(t) => s.(main := if timeUp then Idle else LoopCheck, completed := s.completed + [t])
    case Joining => if s.worker.Ended? then s.(main := Gone) else s
    case _ => s
  }

  function MoveWorker(s: System): (r: System)
    requires Formed(s)
  {
    match s.worker
    case Top => s.(worker := if s.stop then Ended else Look)
    case Look => s.(worker := if IsEmpty(s.run.front, s.run.tail) then Top else Copy)
    case Copy => s.(worker := TakeBump(s.run.slots[s.run.front]), run := CopySlot(s.run))
    case TakeBump(t) => s.(worker := Execute(t), run := BumpFront(s.run))
    case Execute(t) => s.(worker := PutCheck(t), executed := s.executed + [t])
    case PutCheck(t) => if Full(s.comp) then s else s.(worker := PutWrite(t))
    case PutWrite(t) => s.(worker := PutBump(t), comp := WriteSlot(s.comp, t))
    case PutBump(t) => s.(worker := Top, comp := BumpTail(s.comp))
    case Ended => s
  }

  function Move(s: System, a: Act): (r: System)
    requires Formed(s)
    ensures Formed(r)
  {
    match a
    case Add(t) => if s.main.Idle? then s.(main := AddCheck(t), added := s.added + [t]) else s
    case Loop => if s.main.Idle? then s.(main := LoopCheck) else s
    case Terminate => if s.main.Idle? then s.(main := Joining, stop := true) else s
    case MainStep(timeUp) => MoveMain(s, timeUp)
    case WorkerStep => MoveWorker(s)
  }

  function Run(s: System, acts: seq<Act>): (r: System)
    requires Formed(s)
    ensures Formed(r)
    decreases |acts|
  {
    if acts == [] then s else Run(Move(s, acts[0]), acts[1..])
  }

  /** Two rings of capacity n with whatever was in their memory. */
  predicate Initial(s: System, n: nat) {
    && |s.run.slots| == n + 1 && s.run == Queue(s.run.slots, seq(n + 1, i => false), 0, 0)
    && |s.comp.slots| == n + 1 && s.comp == Queue(s.comp.slots, seq(n + 1, i => false), 0, 0)
    && s.main == Idle && s.worker == Top && !s.stop
    && s.added == [] && s.executed == [] && s.completed == []
  }

  // ---------------------------------------------------------------- invariant

  /** Exactly the queued slots are unread, but for one the reader has copied and
      not yet passed and one the writer has written and not yet announced. */
  ghost predicate Sound(q: Queue, copied: bool, written: bool) {
    && Shaped(q)
    && (copied ==> !IsEmpty(q.front, q.tail))
    && (written ==> !Full(q))
    && (forall i :: 0 <= i < |q.slots| ==>
          (q.unread[i] <==> (Occupied(q.front, q.tail, i) && !(copied && i == q.front)) || (written && i == q.tail)))
  }

  predicate MayWrite(q: Queue)
    requires Shaped(q)
  {
    !Full(q)
  }

  predicate MayCopy(q: Queue)
    requires Shaped(q)
  {
    !IsEmpty(q.front, q.tail)
  }

  ghost predicate MainAt(s: System)
    requires Formed(s)
  {
    match s.main
    case AddWrite(_) => MayWrite(s.run)
    case AddBump(t) => s.run.slots[s.run.tail] == t
    case LoopCopy => MayCopy(s.comp)
    case LoopBump(t) => s.comp.slots[s.comp.front] == t
    case _ => true
  }

  ghost predicate WorkerAt(s: System)
    requires Formed(s)
  {
    match s.worker
    case Copy => MayCopy(s.run)
    case TakeBump(t) => s.run.slots[s.run.front] == t
    case PutWrite(_) => MayWrite(s.comp)
    case PutBump(t) => s.comp.slots[s.comp.tail] == t
    case Ended => s.stop
    case _ => true
  }

  function Adding(m: Main): (r: seq<Task>) {
    match m
    case AddCheck(t) => [t]
    case AddWrite(t) => [t]
    case AddBump(t) => [t]
    case _ => []
  }

  function Completing(m: Main): (r: seq<Task>) {
    if m.Complete? then [m.t] else []
  }

  /** What the worker holds before and after executing it. */
  function Taken(w: Worker): (r: seq<Task>) {
    if w.Execute? then [w.t] else []
  }

  function Done(w: Worker): (r: seq<Task>) {
    match w
    case PutCheck(t) => [t]
    case PutWrite(t) => [t]
    case PutBump(t) => [t]
    case _ => []
  }

  function Hand(w: Worker): (r: seq<Task>)
    ensures |r| <= 1
  {
    Taken(w) + Done(w)
  }

  /** Executed is what has come through the worker; added is that, what it has
      taken and what still waits, each in order and each task once. */
  ghost predicate Conserved(s: System)
    requires Formed(s)
  {
    && s.executed == s.completed + Completing(s.main) + Contents(s.comp) + Done(s.worker)
    && s.added == s.executed + Taken(s.worker) + Contents(s.run) + Adding(s.main)
  }

  ghost predicate Protected(s: System) {
    && Formed(s)
    && Sound(s.run, s.worker.TakeBump?, s.main.AddBump?)
    && Sound(s.comp, s.main.LoopBump?, s.worker.PutBump?)
    && MainAt(s) && WorkerAt(s)
    && (s.stop <==> s.main.Joining? || s.main.Gone?)
  }

  ghost predicate Inv(s: System) {
    Protected(s) && Conserved(s)
  }

  lemma WriteKeeps(q: Queue, copied: bool, t: Task)
    requires Sound(q, copied, false) && !Full(q)
    ensures Sound(WriteSlot(q, t), copied, true) && !q.unread[q.tail]
    ensures Contents(WriteSlot(q, t)) == Contents(q)
    ensures copied ==> WriteSlot(q, t).slots[q.front] == q.slots[q.front]
  {
    WriteIsInvisible(q.slots, q.front, q.tail, t);
  }

  lemma BumpTailKeeps(q: Queue, copied: bool)
    requires Sound(q, copied, true)
    ensures Sound(BumpTail(q), copied, false)
    ensures Contents(BumpTail(q)) == Contents(q) + [q.slots[q.tail]]
  {
    PushAppends(q.slots, q.front, q.tail, q.slots[q.tail]);
    assert q.slots[q.tail := q.slots[q.tail]] == q.slots;
  }

  lemma CopyKeeps(q: Queue, written: bool)
    requires Sound(q, false, written) && !IsEmpty(q.front, q.tail)
    ensures Sound(CopySlot(q), true, written) && q.unread[q.front]
    ensures Contents(CopySlot(q)) == Contents(q)
  {
  }

  lemma BumpFrontKeeps(q: Queue, written: bool)
    requires Sound(q, true, written)
    ensures Sound(BumpFront(q), false, written) && !Full(BumpFront(q))
    ensures Contents(q) == [q.slots[q.front]] + Contents(BumpFront(q))
  {
    ReadTakesOldest(q.slots, q.front, q.tail);
  }

  /** A task at the head of a stretch moves one place on. */
  lemma PassesFront(a: seq<Task>, t: Task, c: seq<Task>, d: seq<Task>)
    ensures a + [] + ([t] + c) + d == a + [t] + c + d == (a + [t]) + [] + c + d
  {
  }

  /** A task at the end of a stretch moves one place on. */
  lemma PassesBack(a: seq<Task>, b: seq<Task>, c: seq<Task>, t: Task)
    ensures a + b + c + [t] == a + b + (c + [t]) + [] == (a + b + c + []) + [t]
  {
  }

  lemma MainKeepsProtected(s: System, timeUp: bool)
    requires Protected(s)
    ensures Protected(MoveMain(s, timeUp))
  {
    match s.main
    case AddWrite(t) => WriteKeeps(s.run, s.worker.TakeBump?, t);
    case AddBump(t) => BumpTailKeeps(s.run, s.worker.TakeBump?);
    case LoopCopy => CopyKeeps(s.comp, s.worker.PutBump?);
    case LoopBump(t) => BumpFrontKeeps(s.comp, s.worker.PutBump?);
    case _ =>
  }

  lemma AddConserves(s: System, timeUp: bool)
    requires Inv(s) && (s.main.AddWrite? || s.main.AddBump?)
    ensures Conserved(MoveMain(s, timeUp))
  {
    if s.main.AddWrite? {
      WriteKeeps(s.run, s.worker.TakeBump?, s.main.t);
    } else {
      BumpTailKeeps(s.run, s.worker.TakeBump?);
      PassesBack(s.executed, Taken(s.worker), Contents(s.run), s.main.t);
    }
  }

  lemma MainConserves(s: System, timeUp: bool)
    requires Inv(s)
    ensures Conserved(MoveMain(s, timeUp))
  {
    hide Sound;
    match s.main
    case AddWrite(_) => AddConserves(s, timeUp);
    case AddBump(_) => AddConserves(s, timeUp);
    case LoopBump(t) =>
      BumpFrontKeeps(s.comp, s.worker.PutBump?);
      PassesFront(s.completed, t, Contents(BumpFront(s.comp)), Done(s.worker));
    case Complete(t) => PassesFront(s.completed, t, Contents(s.comp), Done(s.worker));
    case _ =>
  }

  lemma WorkerKeepsProtected(s: System)
    requires Protected(s)
    ensures Protected(MoveWorker(s))
  {
    match s.worker
    case Copy => CopyKeeps(s.run, s.main.AddBump?);
    case TakeBump(t) => BumpFrontKeeps(s.run, s.main.AddBump?);
    case PutWrite(t) => WriteKeeps(s.comp, s.main.LoopBump?, t);
    case PutBump(t) => BumpTailKeeps(s.comp, s.main.LoopBump?);
    case _ =>
  }

  lemma TaskConserves(s: System)
    requires Inv(s) && (s.worker.TakeBump? || s.worker.Execute?)
    ensures Conserved(MoveWorker(s))
  {
    hide Sound;
    if s.worker.TakeBump? {
      BumpFrontKeeps(s.run, s.main.AddBump?);
      PassesFront(s.executed, s.worker.t, Contents(BumpFront(s.run)), Adding(s.main));
    } else {
      PassesFront(s.executed, s.worker.t, Contents(s.run), Adding(s.main));
      PassesBack(s.completed, Completing(s.main), Contents(s.comp), s.worker.t);
    }
  }

  lemma WorkerConserves(s: System)
    requires Inv(s)
    ensures Conserved(MoveWorker(s))
  {
    hide Sound;
    match s.worker
    case TakeBump(_) => TaskConserves(s);
    case Execute(_) => TaskConserves(s);
    case PutWrite(t) => WriteKeeps(s.comp, s.main.LoopBump?, t);
    case PutBump(t) =>
      BumpTailKeeps(s.comp, s.main.LoopBump?);
      PassesBack(s.completed, Completing(s.main), Contents(s.comp), t);
    case _ =>
  }

  lemma MoveKeepsInv(s: System, a: Act)
    requires Inv(s)
    ensures Inv(Move(s, a))
  {
    match a
    case MainStep(timeUp) =>
      MainKeepsProtected(s, timeUp);
      MainConserves(s, timeUp);
    case WorkerStep =>
      WorkerKeepsProtected(s);
      WorkerConserves(s);
    case Add(t) =>
      if s.main.Idle? {
        PassesBack(s.executed, Taken(s.worker), Contents(s.run), t);
      }
    case _ =>
  }

  lemma {:induction false} RunKeepsInv(s: System, acts: seq<Act>)
    requires Inv(s)
    ensures Inv(Run(s, acts))
    decreases |acts|
  {
    if acts != [] {
      MoveKeepsInv(s, acts[0]);
      RunKeepsInv(Move(s, acts[0]), acts[1..]);
    }
  }

  /** No slot is overwritten before it has been read, and no slot is read that has
      not been written since. */
  predicate SafeAccess(s: System)
    requires Formed(s)
  {
    && (s.main.AddWrite? ==> !s.run.unread[s.run.tail])
    && (s.worker.PutWrite? ==> !s.comp.unread[s.comp.tail])
    && (s.worker.Copy? ==> s.run.unread[s.run.front])
    && (s.main.LoopCopy? ==> s.comp.unread[s.comp.front])
  }

  /** Whatever the interleaving, tasks are executed once each and completed once
      each, in the order they were added, and none is lost. */
  lemma PipelineKeepsOrder(s0: System, n: nat, acts: seq<Act>)
    requires Initial(s0, n)
    ensures var s := Run(s0, acts);
            && Inv(s) && SafeAccess(s)
            && s.added == s.completed + Completing(s.main) + Contents(s.comp) + Hand(s.worker)
                            + Contents(s.run) + Adding(s.main)
            && s.completed <= s.executed <= s.added
  {
    RunKeepsInv(s0, acts);
    var s := Run(s0, acts);
    InOrder(s.completed, Completing(s.main), Contents(s.comp), Taken(s.worker), Done(s.worker), Contents(s.run),
            Adding(s.main));
  }

  lemma InOrder(a: seq<Task>, b: seq<Task>, c: seq<Task>, taken: seq<Task>, done: seq<Task>, e: seq<Task>, f: seq<Task>)
    requires taken == [] || done == []
    ensures (a + b + c + done) + taken + e + f == a + b + c + (taken + done) + e + f
    ensures a <= a + b + c + done <= (a + b + c + done) + taken + e + f
  {
    assert taken == [] || done == [] ==> done + taken == taken + done;
    assert (a + b + c + done) + taken == a + b + c + (done + taken);
    assert (a + b + c + done) + taken + e + f == (a + b + c + done) + (taken + e + f);
    assert a + b + c + done == a + (b + c + done);
  }

  // ----------------------------------------------------------------- blocking

  /** Both rings have capacity n. */
  predicate Capacity(s: System, n: nat) {
    |s.run.slots| == n + 1 && |s.comp.slots| == n + 1
  }

  /** Tasks accepted by add and not yet read by loop. */
  function Outstanding(s: System): (k: nat)
    requires Formed(s)
  {
    |Contents(s.comp)| + |Hand(s.worker)| + |Contents(s.run)|
  }

  /** Nothing starts or terminates the main thread while it is inside add. */
  predicate InsideAdd(acts: seq<Act>) {
    forall a :: a in acts ==> a.MainStep? || a.WorkerStep?
  }

  function WorkerSteps(acts: seq<Act>): (k: nat) {
    if acts == [] then 0 else (if acts[0].WorkerStep? then 1 else 0) + WorkerSteps(acts[1..])
  }

  predicate Waiting(s: System)
    requires Formed(s)
  {
    s.main.AddCheck? && Full(s.run)
  }

  /** How many steps of the worker free a slot. */
  function Wait(w: Worker): (k: nat)
    ensures k <= 8
  {
    match w
    case TakeBump(_) => 1
    case Copy => 2
    case Look => 3
    case Top => 4
    case PutBump(_) => 5
    case PutWrite(_) => 6
    case PutCheck(_) => 7
    case Execute(_) => 8
    case Ended => 0
  }

  lemma FullIff(s: System, n: nat)
    requires Inv(s) && Capacity(s, n) && s.main.AddCheck?
    ensures Outstanding(s) <= 2 * n + 1
    ensures Outstanding(s) == 2 * n + 1 <==> Full(s.run) && Full(s.comp) && |Hand(s.worker)| == 1
    ensures |s.added| == |s.completed| + Outstanding(s) + 1
  {
  }

  /** The worker cannot hand over what it holds: no step changes that. */
  lemma WedgedStays(s: System, n: nat, a: Act)
    requires Inv(s) && Capacity(s, n) && s.main.AddCheck? && Outstanding(s) == 2 * n + 1
    requires a.MainStep? || a.WorkerStep?
    ensures var r := Move(s, a);
            Inv(r) && Capacity(r, n) && r.main == s.main && Outstanding(r) == 2 * n + 1
  {
    FullIff(s, n);
    MoveKeepsInv(s, a);
    FullIff(Move(s, a), n);
  }

  lemma {:induction false} WedgedForEver(s: System, n: nat, acts: seq<Act>)
    requires Inv(s) && Capacity(s, n) && s.main.AddCheck? && Outstanding(s) == 2 * n + 1
    requires InsideAdd(acts)
    ensures Run(s, acts).main == s.main
    decreases |acts|
  {
    if acts != [] {
      WedgedStays(s, n, acts[0]);
      WedgedForEver(Move(s, acts[0]), n, acts[1..]);
    }
  }

  /** Otherwise the worker comes a step nearer to freeing a slot. */
  lemma WorkerFrees(s: System, n: nat)
    requires Inv(s) && Capacity(s, n) && n >= 1 && Waiting(s) && Outstanding(s) < 2 * n + 1
    ensures var r := MoveWorker(s);
            && Inv(r) && Capacity(r, n) && r.main == s.main && Outstanding(r) < 2 * n + 1
            && (Full(r.run) ==> Wait(r.worker) < Wait(s.worker))
  {
    var r := Move(s, WorkerStep);
    FullIff(s, n);
    MoveKeepsInv(s, WorkerStep);
    FullIff(r, n);
    if s.worker.TakeBump? {
      BumpFrontKeeps(s.run, false);
    }
  }

  lemma StepInAdd(s: System, n: nat, a: Act)
    requires Inv(s) && Capacity(s, n) && n >= 1 && Waiting(s) && Outstanding(s) < 2 * n + 1
    requires a.MainStep? || a.WorkerStep?
    ensures var r := Move(s, a);
            && Inv(r) && Capacity(r, n) && r.main == s.main && Outstanding(r) < 2 * n + 1
            && (Full(r.run) ==> Wait(r.worker) + (if a.WorkerStep? then 1 else 0) <= Wait(s.worker))
  {
    if a.WorkerStep? {
      WorkerFrees(s, n);
    }
  }

  ghost predicate GetsRoom(s: System, acts: seq<Act>)
    requires Formed(s)
  {
    exists k :: 0 <= k <= |acts| && !Waiting(Run(s, acts[..k]))
  }

  lemma RoomLater(s: System, a: Act, acts: seq<Act>)
    requires Formed(s) && GetsRoom(Move(s, a), acts)
    ensures GetsRoom(s, [a] + acts)
  {
    var k :| 0 <= k <= |acts| && !Waiting(Run(Move(s, a), acts[..k]));
    var now := ([a] + acts)[..k + 1];
    assert now[1..] == acts[..k];
    assert !Waiting(Run(s, now));
  }

  /** Below 2n + 1 outstanding tasks, any interleaving in which the worker makes 8
      steps gives the waiting main thread room. */
  lemma {:induction false} AddGetsThrough(s: System, n: nat, acts: seq<Act>)
    requires Inv(s) && Capacity(s, n) && n >= 1 && s.main.AddCheck? && Outstanding(s) < 2 * n + 1
    requires InsideAdd(acts) && WorkerSteps(acts) >= Wait(s.worker)
    ensures GetsRoom(s, acts)
    decreases |acts|
  {
    if !Waiting(s) {
      assert !Waiting(Run(s, acts[..0]));
    } else if acts != [] {
      StepInAdd(s, n, acts[0]);
      if Full(Move(s, acts[0]).run) {
        AddGetsThrough(Move(s, acts[0]), n, acts[1..]);
      } else {
        assert !Waiting(Run(Move(s, acts[0]), acts[1..][..0]));
      }
      RoomLater(s, acts[0], acts[1..]);
      assert acts == [acts[0]] + acts[1..];
    }
  }

  lemma {:induction false} Escapes(s: System, n: nat) returns (acts: seq<Act>)
    requires Inv(s) && Capacity(s, n) && n >= 1 && s.main.AddCheck? && Outstanding(s) < 2 * n + 1
    ensures InsideAdd(acts) && Run(s, acts).main.Idle?
    decreases if Full(s.run) then 1 + Wait(s.worker) else 0
  {
    if Full(s.run) {
      WorkerFrees(s, n);
      var rest := Escapes(MoveWorker(s), n);
      acts := [WorkerStep] + rest;
      assert acts[1..] == rest;
    } else {
      var checked := Move(s, MainStep(false));
      var written := Move(checked, MainStep(false));
      acts := [MainStep(false), MainStep(false), MainStep(false)];
      assert Run(written, acts[1..][1..]) == Move(written, MainStep(false)) by {
        assert acts[1..][1..][1..] == [];
      }
      assert Run(checked, acts[1..]) == Run(written, acts[1..][1..]);
    }
  }

  /** Whatever happens, add does not return. */
  ghost predicate BlockedForEver(s: System)
    requires Formed(s)
  {
    forall acts :: InsideAdd(acts) ==> !Run(s, acts).main.Idle?
  }

  /** add can stay blocked for ever exactly when both rings are full and the worker
      holds a task. */
  lemma BlockedForEverIff(s: System, n: nat)
    requires Inv(s) && Capacity(s, n) && n >= 1 && s.main.AddCheck?
    ensures BlockedForEver(s) <==> Outstanding(s) == 2 * n + 1
    ensures |s.added| == |s.completed| + Outstanding(s) + 1
  {
    FullIff(s, n);
    if Outstanding(s) == 2 * n + 1 {
      forall acts | InsideAdd(acts)
        ensures !Run(s, acts).main.Idle?
      {
        WedgedForEver(s, n, acts);
      }
    } else {
      var acts := Escapes(s, n);
    }
  }

  // --------------------------------------------------------------------- loop

  /** How many steps of the main thread complete the task that loop is at. */
  function LeftInLoop(m: Main): (k: nat) {
    match m
    case LoopCheck => 4
    case LoopCopy => 3
    case LoopBump(_) => 2
    case Complete(_) => 1
    case _ => 0
  }

  /** What loop has read and what it can still read. */
  function Pending(s: System): (r: seq<Task>)
    requires Formed(s)
  {
    Completing(s.main) + Contents(s.comp)
  }

  /** Both threads go on, and the time of loop is not up. */
  predicate InTime(acts: seq<Act>) {
    forall a :: a in acts ==> a == MainStep(false) || a.WorkerStep?
  }

  function MainSteps(acts: seq<Act>): (k: nat) {
    if acts == [] then 0 else (if acts[0].MainStep? then 1 else 0) + MainSteps(acts[1..])
  }

  /** The worker only adds to what is pending. */
  lemma WorkerAddsPending(s: System)
    requires Inv(s)
    ensures var r := MoveWorker(s);
            r.main == s.main && r.completed == s.completed && Pending(s) <= Pending(r)
  {
    match s.worker
    case PutWrite(t) => WriteKeeps(s.comp, s.main.LoopBump?, t);
    case PutBump(t) => BumpTailKeeps(s.comp, s.main.LoopBump?);
    case _ =>
  }

  /** A step of loop while there is something pending. */
  lemma LoopNears(s: System, timeUp: bool)
    requires Inv(s) && LeftInLoop(s.main) > 0 && Pending(s) != []
    ensures var r := MoveMain(s, timeUp);
            if s.main.Complete? then
              && r.completed == s.completed + Pending(s)[..1] && Pending(r) == Pending(s)[1..]
              && (if timeUp then r.main.Idle? else r.main.LoopCheck?)
            else
              r.completed == s.completed && Pending(r) == Pending(s) && LeftInLoop(r.main) == LeftInLoop(s.main) - 1
  {
    match s.main
    case LoopCopy => CopyKeeps(s.comp, s.worker.PutBump?);
    case LoopBump(t) => BumpFrontKeeps(s.comp, s.worker.PutBump?);
    case _ =>
  }

  lemma LoopStep(s: System, a: Act)
    requires Inv(s) && LeftInLoop(s.main) > 0 && (a == MainStep(false) || a.WorkerStep?)
    requires a.MainStep? ==> Pending(s) != []
    ensures var r, left := Move(s, a), LeftInLoop(s.main);
            && Inv(r) && left <= 4
            && (if a.WorkerStep? then
                  r.main == s.main && r.completed == s.completed && Pending(s) <= Pending(r)
                else if left == 1 then
                  && LeftInLoop(r.main) == 4
                  && r.completed == s.completed + Pending(s)[..1] && Pending(r) == Pending(s)[1..]
                else
                  LeftInLoop(r.main) == left - 1 && r.completed == s.completed && Pending(r) == Pending(s))
  {
    hide Inv, Pending, MoveWorker, MoveMain;
    MoveKeepsInv(s, a);
    if a.WorkerStep? {
      WorkerAddsPending(s);
    } else {
      LoopNears(s, false);
    }
  }

  /** Four steps complete a task, whatever the worker does meanwhile: in so many steps
      loop completes the first k pending tasks, in their order. */
  lemma {:induction false} LoopCompletes(s: System, acts: seq<Act>, k: nat)
    requires Inv(s) && LeftInLoop(s.main) > 0 && InTime(acts)
    requires MainSteps(acts) == 4 * k + LeftInLoop(s.main) - 4 && k <= |Pending(s)|
    ensures var r := Run(s, acts);
            Inv(r) && r.main.LoopCheck? && r.completed == s.completed + Pending(s)[..k]
    decreases |acts|
  {
    hide Conserved, Sound, MainAt, WorkerAt, Pending, Move, LeftInLoop;
    if acts == [] {
      LoopLeft(s.main);
    } else {
      var a := acts[0];
      assert a in acts;
      var r := Move(s, a);
      LoopLeft(s.main);
      LoopStep(s, a);
      if a.WorkerStep? {
        LoopCompletes(r, acts[1..], k);
      } else if LeftInLoop(s.main) == 1 {
        LoopCompletes(r, acts[1..], k - 1);
        FirstOnes(s.completed, Pending(s), k);
      } else {
        LoopCompletes(r, acts[1..], k);
      }
    }
  }

  lemma FirstOnes(done: seq<Task>, p: seq<Task>, k: nat)
    requires 1 <= k <= |p|
    ensures done + p[..1] + p[1..][..k - 1] == done + p[..k]
  {
  }

  lemma LoopLeft(m: Main)
    ensures LeftInLoop(m) <= 4 && (LeftInLoop(m) == 4 <==> m.LoopCheck?)
  {
  }

  /** A call of loop completes what lies in the complete queue, and nothing else. */
  lemma LoopCall(s: System, acts: seq<Act>, k: nat)
    requires Inv(s) && s.main.Idle? && InTime(acts)
    requires MainSteps(acts) == 4 * k && k <= |Contents(s.comp)|
    ensures var r := Run(s, [Loop] + acts);
            Inv(r) && r.main.LoopCheck? && r.completed == s.completed + Contents(s.comp)[..k]
  {
    hide Conserved, Sound, MainAt, WorkerAt, Pending, Move, LeftInLoop;
    assert ([Loop] + acts)[1..] == acts;
    LoopBegins(s);
    LoopCompletes(Move(s, Loop), acts, k);
  }

  lemma LoopBegins(s: System)
    requires Inv(s) && s.main.Idle?
    ensures var r := Move(s, Loop);
            Inv(r) && LeftInLoop(r.main) == 4 && Pending(r) == Contents(s.comp) && r.completed == s.completed
  {
    MoveKeepsInv(s, Loop);
  }

  /** loop returns exactly when it finds the ring empty or its time is up after a task. */
  lemma LoopReturnsIff(s: System, timeUp: bool)
    requires Inv(s) && LeftInLoop(s.main) > 0
    ensures MoveMain(s, timeUp).main.Idle? <==>
              (s.main.LoopCheck? && Pending(s) == []) || (s.main.Complete? && timeUp)
  {
    if Pending(s) != [] {
      LoopNears(s, timeUp);
    }
  }

  // -------------------------------------------------------------- termination

  /** The worker, told to stop or not, will still push something. */
  predicate MustPush(s: System)
    requires Formed(s)
  {
    Hand(s.worker) != [] || s.worker.Copy? || s.worker.TakeBump? || (s.worker.Look? && Contents(s.run) != [])
  }

  function WaitToEnd(w: Worker): (k: nat) {
    match w
    case Ended => 0
    case Top => 1
    case PutBump(_) => 2
    case PutWrite(_) => 3
    case PutCheck(_) => 4
    case Execute(_) => 5
    case TakeBump(_) => 6
    case Copy => 7
    case Look => 8
  }

  lemma {:induction false} JoinHangs(s: System, acts: seq<Act>)
    requires Inv(s) && s.main.Joining? && Full(s.comp) && MustPush(s)
    ensures Run(s, acts).main.Joining?
    decreases |acts|
  {
    if acts != [] {
      MoveKeepsInv(s, acts[0]);
      JoinHangs(Move(s, acts[0]), acts[1..]);
    }
  }

  lemma WorkerNearsEnd(s: System)
    requires Inv(s) && s.main.Joining? && !(Full(s.comp) && MustPush(s)) && !s.worker.Ended?
    ensures var r := MoveWorker(s);
            && Inv(r) && r.main.Joining? && !(Full(r.comp) && MustPush(r))
            && WaitToEnd(r.worker) < WaitToEnd(s.worker)
  {
    MoveKeepsInv(s, WorkerStep);
    hide Inv;
  }

  lemma {:induction false} JoinReturns(s: System) returns (acts: seq<Act>)
    requires Inv(s) && s.main.Joining? && !(Full(s.comp) && MustPush(s))
    ensures Run(s, acts).main.Gone?
    decreases WaitToEnd(s.worker)
  {
    if s.worker.Ended? {
      acts := [MainStep(false)];
      assert acts[1..] == [];
    } else {
      WorkerNearsEnd(s);
      var rest := JoinReturns(MoveWorker(s));
      acts := [WorkerStep] + rest;
      assert acts[1..] == rest;
    }
  }

  ghost predicate JoinsForEver(s: System)
    requires Formed(s)
  {
    forall acts :: Run(s, acts).main.Joining?
  }

  /** terminate never returns exactly when the worker still has to push into a full
      complete queue: its only reader is the thread that waits. */
  lemma JoinsForEverIff(s: System)
    requires Inv(s) && s.main.Joining?
    ensures JoinsForEver(s) <==> Full(s.comp) && MustPush(s)
  {
    if Full(s.comp) && MustPush(s) {
      forall acts ensures Run(s, acts).main.Joining? {
        JoinHangs(s, acts);
      }
    } else {
      var acts := JoinReturns(s);
    }
  }
}

/** The outcome flags of slasync_base.cpp. */
module AsyncOutcome {

  datatype Report = Success | Failed(executed: bool)

  /** What the handler is told: whether it ran, and if so whether it said yes. */
  function Expected(validWhenRun: bool, answer: bool): (r: Report) {
    if validWhenRun && answer then Success else Failed(validWhenRun)
  }

  class AsyncBase {
    var valid: bool
    var executed: bool
    var successd: bool

    constructor ()
      ensures valid && !executed && !successd
    {
      valid, executed, successd := true, false, false;
    }

    method SetInvalid()
      modifies this`valid
      ensures !valid
    {
      valid := false;
    }

    /** answer: what the handler's onExecute returns. */
    method OnExecute(answer: bool)
      requires !executed && !successd
      modifies this`executed, this`successd
      ensures executed == valid && successd == (valid && answer)
    {
      if valid {
        successd := answer;
        executed := true;
      }
    }

    method OnComplete() returns (r: Report)
      ensures r == if successd then Success else Failed(executed)
    {
      if successd {
        r := Success;
      } else {
        r := Failed(executed);
      }
    }

    /** One trip through the worker and back: what the main thread reports is what
        happened, even when the task is invalidated after it has run. */
    method Trip(answer: bool, invalidatedAfter: bool) returns (r: Report)
      requires !executed && !successd
      modifies this
      ensures r == Expected(old(valid), answer)
    {
      OnExecute(answer);
      if invalidatedAfter {
        SetInvalid();
      }
      r := OnComplete();
    }
  }
}
