/** Runs in which the two threads of AsyncPipeline do hang, from the start and for every
    capacity. */
module AsyncHangs {
  import opened AsyncPipeline
  import opened Ring

  lemma {:induction false} RunAppends(s: System, a: seq<Act>, b: seq<Act>)
    requires Formed(s)
    ensures Run(s, a + b) == Run(Run(s, a), b)
    decreases |a|
  {
    if a == [] {
      assert a + b == b;
    } else {
      assert (a + b)[1..] == a[1..] + b;
      RunAppends(Move(s, a[0]), a[1..], b);
    }
  }

  /** The main thread is idle, the worker at w, and so many tasks are in the rings. */
  ghost predicate Holds(s: System, n: nat, running: nat, complete: nat) {
    && Inv(s) && Capacity(s, n) && !s.stop && s.main == Idle
    && |Contents(s.run)| == running && |Contents(s.comp)| == complete
  }

  lemma InitialHolds(s: System, n: nat)
    requires Initial(s, n)
    ensures Holds(s, n, 0, 0)
  {
  }

  /** One step of the worker or the main thread, as a run. */
  lemma OneStep(s: System, a: Act)
    requires Inv(s)
    ensures Inv(Move(s, a)) && Run(s, [a]) == Move(s, a)
  {
    MoveKeepsInv(s, a);
    assert [a][1..] == [];
  }

  lemma ThenStep(s0: System, acts: seq<Act>, s: System, a: Act) returns (more: seq<Act>)
    requires Formed(s0) && Inv(s) && s == Run(s0, acts)
    ensures more == acts + [a] && Run(s0, more) == Move(s, a) && Inv(Move(s, a))
  {
    more := acts + [a];
    RunAppends(s0, acts, [a]);
    OneStep(s, a);
  }

  /** The main thread has written a task, with the worker standing still. */
  lemma WritesOne(s: System, n: nat, i: nat, j: nat) returns (acts: seq<Act>)
    requires Holds(s, n, i, j) && i < n
    ensures var r := Run(s, acts);
            && Inv(r) && r.main.AddBump? && r == s.(run := r.run, main := r.main, added := r.added)
            && Contents(r.run) == Contents(s.run) && |r.run.slots| == |s.run.slots|
  {
    acts := ThenStep(s, [], s, Add(0));
    var s1 := Move(s, Add(0));
    acts := ThenStep(s, acts, s1, MainStep(false));
    var s2 := Move(s1, MainStep(false));
    acts := ThenStep(s, acts, s2, MainStep(false));
    WriteIsInvisible(s2.run.slots, s2.run.front, s2.run.tail, 0);
  }

  lemma AddsOne(s: System, n: nat, i: nat, j: nat) returns (acts: seq<Act>)
    requires Holds(s, n, i, j) && i < n
    ensures Holds(Run(s, acts), n, i + 1, j) && Run(s, acts).worker == s.worker
  {
    var writes := WritesOne(s, n, i, j);
    var s1 := Run(s, writes);
    acts := ThenStep(s, writes, s1, MainStep(false));
    BumpTailKeeps(s1.run, s1.worker.TakeBump?);
  }

  lemma WorkerLooks(s: System, n: nat, i: nat, j: nat) returns (acts: seq<Act>)
    requires Holds(s, n, i, j) && i > 0 && s.worker == Top
    ensures Holds(Run(s, acts), n, i, j) && Run(s, acts).worker.Copy?
  {
    acts := ThenStep(s, [], s, WorkerStep);
    var s1 := Move(s, WorkerStep);
    acts := ThenStep(s, acts, s1, WorkerStep);
  }

  lemma WorkerCopies(s: System, n: nat, i: nat, j: nat) returns (acts: seq<Act>)
    requires Holds(s, n, i, j) && i > 0 && s.worker.Copy?
    ensures Holds(Run(s, acts), n, i - 1, j) && Run(s, acts).worker.Execute?
  {
    acts := ThenStep(s, [], s, WorkerStep);
    var s1 := Move(s, WorkerStep);
    acts := ThenStep(s, acts, s1, WorkerStep);
    BumpFrontKeeps(s1.run, s1.main.AddBump?);
  }

  /** The worker takes a task, executes it and gets to where it hands it over. */
  lemma WorkerTakes(s: System, n: nat, i: nat, j: nat) returns (acts: seq<Act>)
    requires Holds(s, n, i, j) && i > 0 && s.worker == Top
    ensures Holds(Run(s, acts), n, i - 1, j) && Run(s, acts).worker.PutCheck?
  {
    var looks := WorkerLooks(s, n, i, j);
    var s1 := Run(s, looks);
    var copies := WorkerCopies(s1, n, i, j);
    RunAppends(s, looks, copies);
    acts := ThenStep(s, looks + copies, Run(s1, copies), WorkerStep);
  }

  /** The worker has written a completed task. */
  lemma WorkerWrites(s: System, n: nat, i: nat, j: nat) returns (acts: seq<Act>)
    requires Holds(s, n, i, j) && j < n && s.worker.PutCheck?
    ensures var r := Run(s, acts);
            && Inv(r) && r.worker.PutBump? && r == s.(comp := r.comp, worker := r.worker)
            && Contents(r.comp) == Contents(s.comp) && |r.comp.slots| == |s.comp.slots|
  {
    acts := ThenStep(s, [], s, WorkerStep);
    var s1 := Move(s, WorkerStep);
    acts := ThenStep(s, acts, s1, WorkerStep);
    WriteIsInvisible(s1.comp.slots, s1.comp.front, s1.comp.tail, s1.worker.t);
  }

  lemma WorkerPuts(s: System, n: nat, i: nat, j: nat) returns (acts: seq<Act>)
    requires Holds(s, n, i, j) && j < n && s.worker.PutCheck?
    ensures Holds(Run(s, acts), n, i, j + 1) && Run(s, acts).worker == Top
  {
    var writes := WorkerWrites(s, n, i, j);
    var s1 := Run(s, writes);
    acts := ThenStep(s, writes, s1, WorkerStep);
    BumpTailKeeps(s1.comp, s1.main.LoopBump?);
  }

  /** Nobody completes tasks, and the complete queue fills up. */
  lemma {:induction false} FillsComplete(s: System, n: nat, j: nat) returns (acts: seq<Act>)
    requires Holds(s, n, 0, j) && 1 <= n && j <= n && s.worker == Top
    ensures Holds(Run(s, acts), n, 0, n) && Run(s, acts).worker.PutCheck?
    decreases n - j
  {
    var adds := AddsOne(s, n, 0, j);
    var s1 := Run(s, adds);
    var takes := WorkerTakes(s1, n, 1, j);
    var s2 := Run(s1, takes);
    RunAppends(s, adds, takes);
    acts := adds + takes;
    if j < n {
      var puts := WorkerPuts(s2, n, 0, j);
      RunAppends(s, acts, puts);
      var rest := FillsComplete(Run(s2, puts), n, j + 1);
      RunAppends(s, acts + puts, rest);
      acts := acts + puts + rest;
    }
  }

  lemma {:induction false} FillsRunning(s: System, n: nat, i: nat) returns (acts: seq<Act>)
    requires Holds(s, n, i, n) && i <= n
    ensures Holds(Run(s, acts), n, n, n) && Run(s, acts).worker == s.worker
    decreases n - i
  {
    acts := [];
    if i < n {
      var adds := AddsOne(s, n, i, n);
      var rest := FillsRunning(Run(s, adds), n, i + 1);
      RunAppends(s, adds, rest);
      acts := adds + rest;
    }
  }

  /** From the start the two threads can come to where add never returns. */
  lemma AddHangs(s0: System, n: nat) returns (acts: seq<Act>)
    requires Initial(s0, n) && n >= 1
    ensures Run(s0, acts).main.AddCheck? && BlockedForEver(Run(s0, acts))
  {
    InitialHolds(s0, n);
    var fill := FillsComplete(s0, n, 0);
    var s1 := Run(s0, fill);
    var more := FillsRunning(s1, n, 0);
    var s2 := Run(s1, more);
    RunAppends(s0, fill, more);
    acts := ThenStep(s0, fill + more, s2, Add(0));
    BlockedForEverIff(Move(s2, Add(0)), n);
  }

  /** From the start they can come to where terminate never returns. */
  lemma TerminateHangs(s0: System, n: nat) returns (acts: seq<Act>)
    requires Initial(s0, n) && n >= 1
    ensures Run(s0, acts).main.Joining? && JoinsForEver(Run(s0, acts))
  {
    InitialHolds(s0, n);
    var fill := FillsComplete(s0, n, 0);
    var s1 := Run(s0, fill);
    acts := ThenStep(s0, fill, s1, Terminate);
    JoinsForEverIff(Move(s1, Terminate));
  }
}
