/** The instructions the jump machinery of lcode.c works on, with their Lua 5.3
    meaning, and lists of pending jumps threaded through jump offsets. */
module LuaCode {
  import opened Sequences

  const NO_JUMP: int := -1
  const NO_REG: nat := 255
  const MAXARG_SBX: int := 131071

  datatype Instr =
    | Move(a: nat, b: nat)
    | LoadNil(a: nat, b: nat)                 // R(a) .. R(a + b) := nil
    | LoadBool(a: nat, truth: bool, skip: bool)  // skip: pass over the next instruction
    | LoadK(a: nat, k: nat)
    | Jmp(a: nat, sbx: int)
    | Test(a: nat, c: bool)
    | TestSet(a: nat, b: nat, c: bool)
    | Compare(what: nat, want: bool, left: nat, right: nat)  // EQ, LT, LE
    | Other(a: nat, what: nat)                // anything else that leaves a value in R(a)

  /** testTMode: the instruction is a test, so the next one is its jump. */
  predicate IsTest(i: Instr) {
    i.Test? || i.TestSet? || i.Compare?
  }

  // ------------------------------------------------------------------ meaning

  datatype Value = Nil | Bool(b: bool) | Datum(n: int)

  predicate IsFalse(v: Value) {
    v.Nil? || v == Bool(false)
  }

  type Regs = map<nat, Value>

  function Get(rs: Regs, r: nat): (v: Value) {
    if r in rs then rs[r] else Nil
  }

  /** What the instructions kept abstract do. */
  datatype World = World(compare: (Instr, Regs) -> bool, value: (nat, Regs) -> Value)

  datatype State = At(pc: int, rs: Regs)

  function ClearRange(rs: Regs, a: nat, n: nat): (r: Regs)
    ensures forall k: nat :: Get(r, k) == if a <= k < a + n then Nil else Get(rs, k)
  {
    if n == 0 then rs
    else
      var r := ClearRange(rs, a, n - 1)[a + n - 1 := Nil];
      assert forall k: nat :: Get(r, k) == if k == a + n - 1 then Nil else Get(ClearRange(rs, a, n - 1), k);
      r
  }

  /** One step. A test that fails skips its jump; one that succeeds goes on to
      it. */
  function Step(code: seq<Instr>, w: World, s: State): (r: State)
    requires 0 <= s.pc < |code|
  {
    var pc, rs := s.pc, s.rs;
    match code[pc]
    case Move(a, b) => At(pc + 1, rs[a := Get(rs, b)])
    case LoadNil(a, b) => At(pc + 1, ClearRange(rs, a, b + 1))
    case LoadBool(a, b, c) => At(if c then pc + 2 else pc + 1, rs[a := Bool(b)])
    case LoadK(a, k) => At(pc + 1, rs[a := Datum(k)])
    case Jmp(_, sbx) => At(pc + 1 + sbx, rs)
    case Test(a, c) => At(if c == IsFalse(Get(rs, a)) then pc + 2 else pc + 1, rs)
    case TestSet(a, b, c) =>
      if c == IsFalse(Get(rs, b)) then At(pc + 2, rs) else At(pc + 1, rs[a := Get(rs, b)])
    case Compare(_, want, _, _) => At(if want != w.compare(code[pc], rs) then pc + 2 else pc + 1, rs)
    case Other(a, what) => At(pc + 1, rs[a := w.value(what, rs)])
  }

  /** n steps, stopping early where the code ends. */
  function Steps(code: seq<Instr>, w: World, s: State, n: nat): (r: State)
    decreases n
  {
    if n == 0 || !(0 <= s.pc < |code|) then s else Steps(code, w, Step(code, w, s), n - 1)
  }

  // -------------------------------------------------------------- jump lists

  predicate AllJumps(code: seq<Instr>, l: seq<int>) {
    forall j :: j in l ==> IsJump(code, j)
  }

  predicate IsJump(code: seq<Instr>, pc: int) {
    0 <= pc < |code| && code[pc].Jmp?
  }

  /** getjump: the next jump of the list; a jump to itself ends it. */
  function GetJump(code: seq<Instr>, pc: int): (next: int)
    requires IsJump(code, pc)
  {
    if code[pc].sbx == NO_JUMP then NO_JUMP else pc + 1 + code[pc].sbx
  }

  /** The jumps l are threaded from head to NO_JUMP. */
  ghost predicate Threaded(code: seq<Instr>, head: int, l: seq<int>) {
    && head == (if l == [] then NO_JUMP else l[0])
    && AllJumps(code, l)
    && (forall i {:trigger After(l, i, NO_JUMP)} :: 0 <= i < |l| ==> GetJump(code, l[i]) == After(l, i, NO_JUMP))
  }

  /** The head says whether there is anything in the list. */
  lemma ThreadedHead(code: seq<Instr>, head: int, l: seq<int>)
    requires Threaded(code, head, l)
    ensures l == [] <==> head == NO_JUMP
    ensures l != [] ==> head in l && IsJump(code, head)
  {
    if l != [] {
      assert l[0] in l;
    }
  }

  function NodeAt(l: seq<int>, k: nat): (node: int) {
    if k < |l| then l[k] else NO_JUMP
  }

  /** Walking a list: there is a k-th member unless the walk has come to NO_JUMP,
      and getjump leads from it to the next. */
  lemma ThreadedWalk(code: seq<Instr>, head: int, l: seq<int>, k: nat)
    requires Threaded(code, head, l) && k <= |l|
    ensures k < |l| <==> NodeAt(l, k) != NO_JUMP
    ensures k < |l| ==> IsJump(code, l[k]) && l[k] in l && GetJump(code, l[k]) == NodeAt(l, k + 1)
  {
    if k < |l| {
      assert l[k] in l && GetJump(code, l[k]) == After(l, k, NO_JUMP);
    }
  }

  /** A threaded list has no cycle. */
  lemma ThreadedNoDup(code: seq<Instr>, head: int, l: seq<int>)
    requires Threaded(code, head, l)
    ensures NoDup(l)
  {
    forall i, j | 0 <= i < j < |l|
      ensures l[i] != l[j]
    {
      ThreadedApart(code, head, l, i, j);
    }
  }

  lemma {:induction false} ThreadedApart(code: seq<Instr>, head: int, l: seq<int>, i: nat, j: nat)
    requires Threaded(code, head, l) && i < j < |l|
    ensures l[i] != l[j]
    decreases |l| - j
  {
    assert l[i] in l && l[j] in l && l[i + 1] in l;
    assert GetJump(code, l[i]) == After(l, i, NO_JUMP);
    assert GetJump(code, l[j]) == After(l, j, NO_JUMP);
    if j + 1 < |l| {
      ThreadedApart(code, head, l, i + 1, j + 1);
    }
  }

  /** Every test is followed by its jump. */
  ghost predicate TestsPaired(code: seq<Instr>) {
    forall i {:trigger IsTest(code[i])} ::
      0 <= i < |code| && IsTest(code[i]) ==> i + 1 < |code| && code[i + 1].Jmp?
  }

  /** The jump carries a value: its control is a TESTSET. */
  predicate CarriesValue(code: seq<Instr>, pc: int) {
    1 <= pc <= |code| && code[pc - 1].TestSet?
  }

  /** What patchtestreg makes of a TESTSET. */
  function Retargeted(i: Instr, reg: nat): (r: Instr)
    requires i.TestSet?
  {
    if reg != NO_REG && reg != i.b then TestSet(reg, i.b, i.c) else Test(i.b, i.c)
  }

  /** The instruction at pc goes on to the jump behind it, or past that, as the TESTSET i
      does. When it goes on to the jump it leaves what i tests in reg, or, if that is 255,
      everything as it was. */
  ghost predicate TestsAs(i: Instr, code: seq<Instr>, pc: int, reg: nat)
    requires i.TestSet? && 0 <= pc < |code|
  {
    forall w: World, rs: Regs ::
      var s := Step(code, w, At(pc, rs));
      if i.c == IsFalse(Get(rs, i.b)) then s == At(pc + 2, rs)
      else s.pc == pc + 1 && (s.rs == rs || (reg != 255 && s.rs == rs[reg := Get(rs, i.b)]))
           && (reg != 255 ==> Get(s.rs, reg) == Get(rs, i.b))
  }

  lemma RetargetedTests(i: Instr, code: seq<Instr>, pc: int, reg: nat)
    requires i.TestSet? && 0 <= pc < |code| && code[pc] == Retargeted(i, reg)
    ensures TestsAs(i, code, pc, reg)
  {
  }

  /** The instruction at pc goes on as the TESTSET i does, and changes nothing. */
  ghost predicate TestsOnly(i: Instr, code: seq<Instr>, pc: int)
    requires i.TestSet?
  {
    forall w: World, rs: Regs ::
      Steps(code, w, At(pc, rs), 1) == At(if i.c == IsFalse(Get(rs, i.b)) then pc + 2 else pc + 1, rs)
  }

  lemma TestIsOnly(i: Instr, code: seq<Instr>, pc: int)
    requires i.TestSet? && 0 <= pc < |code| && code[pc] == Retargeted(i, NO_REG)
    ensures TestsOnly(i, code, pc)
  {
    RetargetedTests(i, code, pc, NO_REG);
    forall w: World, rs: Regs
      ensures Steps(code, w, At(pc, rs), 1) == At(if i.c == IsFalse(Get(rs, i.b)) then pc + 2 else pc + 1, rs)
    {
      var s := Step(code, w, At(pc, rs));
      assert Steps(code, w, At(pc, rs), 1) == Steps(code, w, s, 0) == s;
    }
  }

  /** The jump j of `before` leads to the target from wherever it is taken, and a test of
      its own that was to put a value somewhere is only a test any more: it leads to the
      jump, or past it, as before. */
  ghost predicate LandsAt(before: seq<Instr>, after: seq<Instr>, j: int, target: int) {
    && (forall w: World, rs: Regs :: Steps(after, w, At(j, rs), 1) == At(target, rs))
    && (CarriesValue(before, j) ==> TestsOnly(before[j - 1], after, j - 1))
  }

  /** The pending jumps land at the end of the code, whatever is put there. */
  lemma LandedLands(code: seq<Instr>, pending: seq<int>, more: seq<Instr>, j: int)
    requires AllJumps(code, pending) && j in pending
    ensures LandsAt(code, Landed(code, pending) + more, j, |code|)
  {
    var after := Landed(code, pending) + more;
    assert IsJump(code, j);
    forall w: World, rs: Regs
      ensures Steps(after, w, At(j, rs), 1) == At(|code|, rs)
    {
      assert Steps(after, w, At(j, rs), 1) == Steps(after, w, Step(after, w, At(j, rs)), 0);
    }
    if CarriesValue(code, j) {
      TestIsOnly(code[j - 1], after, j - 1);
    }
  }

  function PatchedAt(code: seq<Instr>, l: seq<int>, vtarget: int, reg: nat, dtarget: int, i: int): (r: Instr)
    requires 0 <= i < |code| && AllJumps(code, l)
  {
    if i in l then Jmp(code[i].a, (if CarriesValue(code, i) then vtarget else dtarget) - (i + 1))
    else if i + 1 in l && code[i].TestSet? then Retargeted(code[i], reg)
    else code[i]
  }

  /** The code with the jumps of l patched: those that carry a value go to
      vtarget with the value in reg, the others to dtarget, and no other
      instruction but their own TESTSETs is touched. */
  function Patched(code: seq<Instr>, l: seq<int>, vtarget: int, reg: nat, dtarget: int): (r: seq<Instr>)
    requires AllJumps(code, l)
    ensures |r| == |code|
    ensures forall i :: 0 <= i < |code| ==> r[i] == PatchedAt(code, l, vtarget, reg, dtarget, i)
  {
    seq(|code|, i requires 0 <= i < |code| => PatchedAt(code, l, vtarget, reg, dtarget, i))
  }

  /** Patching keeps jumps jumps and tests tests. */
  lemma PatchedKinds(code: seq<Instr>, l: seq<int>, vtarget: int, reg: nat, dtarget: int)
    requires AllJumps(code, l)
    ensures var r := Patched(code, l, vtarget, reg, dtarget);
            && (forall i :: 0 <= i < |code| ==> (code[i].Jmp? <==> r[i].Jmp?))
            && (forall i :: 0 <= i < |code| ==> (IsTest(code[i]) <==> IsTest(r[i])))
            && (TestsPaired(code) ==> TestsPaired(r))
  {
  }

  /** Patching some jumps leaves a list of other jumps threaded as it was. */
  lemma PatchedKeepsList(code: seq<Instr>, l: seq<int>, vtarget: int, reg: nat, dtarget: int,
                         head: int, other: seq<int>)
    requires AllJumps(code, l)
    requires Threaded(code, head, other) && forall j :: j in other ==> j !in l
    ensures Threaded(Patched(code, l, vtarget, reg, dtarget), head, other)
    ensures forall j :: j in other ==>
              CarriesValue(Patched(code, l, vtarget, reg, dtarget), j) == CarriesValue(code, j)
  {
    var r := Patched(code, l, vtarget, reg, dtarget);
    forall j | j in other
      ensures IsJump(r, j) && r[j] == code[j]
      ensures CarriesValue(r, j) == CarriesValue(code, j)
    {
      assert IsJump(code, j);
    }
    forall i | 0 <= i < |other|
      ensures GetJump(r, other[i]) == After(other, i, NO_JUMP)
    {
      assert other[i] in other && GetJump(code, other[i]) == After(other, i, NO_JUMP);
    }
  }

  /** Re-aiming one jump leaves the lists it is not in as they were. */
  lemma FixKeepsList(code: seq<Instr>, pc: int, sbx: int, head: int, l: seq<int>)
    requires IsJump(code, pc) && Threaded(code, head, l) && pc !in l
    ensures Threaded(code[pc := Jmp(code[pc].a, sbx)], head, l)
  {
    var r := code[pc := Jmp(code[pc].a, sbx)];
    forall i | 0 <= i < |l|
      ensures IsJump(r, l[i]) && GetJump(r, l[i]) == After(l, i, NO_JUMP)
    {
      assert l[i] in l && GetJump(code, l[i]) == After(l, i, NO_JUMP);
    }
  }

  /** Appending code leaves every list as it was. */
  lemma GrowKeepsList(code: seq<Instr>, more: seq<Instr>, head: int, l: seq<int>)
    requires Threaded(code, head, l)
    ensures Threaded(code + more, head, l)
    ensures forall j :: j in l ==> CarriesValue(code + more, j) == CarriesValue(code, j)
  {
    var r := code + more;
    forall i | 0 <= i < |l|
      ensures IsJump(r, l[i]) && GetJump(r, l[i]) == After(l, i, NO_JUMP)
    {
      assert l[i] in l && r[l[i]] == code[l[i]] && GetJump(code, l[i]) == After(l, i, NO_JUMP);
    }
  }

  /** The code with the list that starts at head hooked to the last jump of a. */
  function Hooked(code: seq<Instr>, a: seq<int>, head: int): (r: seq<Instr>)
    requires AllJumps(code, a)
    ensures |r| == |code|
    ensures forall i :: 0 <= i < |code| ==> r[i] == code[i] || (r[i].Jmp? && code[i].Jmp?)
  {
    if a == [] || head == NO_JUMP then code
    else
      var last := a[|a| - 1];
      assert last in a;
      code[last := Jmp(code[last].a, head - (last + 1))]
  }

  /** Hooking leaves the lists the changed jump is not in as they were. */
  lemma HookedKeepsList(code: seq<Instr>, a: seq<int>, head: int, other: int, l: seq<int>)
    requires AllJumps(code, a) && Threaded(code, other, l) && forall j :: j in a ==> j !in l
    ensures Threaded(Hooked(code, a, head), other, l)
    ensures TestsPaired(code) ==> TestsPaired(Hooked(code, a, head))
    ensures forall j :: CarriesValue(Hooked(code, a, head), j) == CarriesValue(code, j)
  {
    if a != [] && head != NO_JUMP {
      var last := a[|a| - 1];
      assert last in a;
      FixKeepsList(code, last, head - (last + 1), other, l);
    }
  }

  lemma HookedThreads(code: seq<Instr>, l1: int, l2: int, a: seq<int>, b: seq<int>)
    requires Threaded(code, l1, a) && Threaded(code, l2, b) && a != [] && b != []
    requires forall j :: j in a ==> j !in b
    ensures Threaded(Hooked(code, a, l2), l1, a + b)
  {
    var last, l := a[|a| - 1], a + b;
    assert last in a && l2 in b;
    var r := Hooked(code, a, l2);
    ThreadedNoDup(code, l1, a);
    FixKeepsList(code, last, l2 - (last + 1), l2, b);
    forall i | 0 <= i < |l|
      ensures IsJump(r, l[i]) && GetJump(r, l[i]) == After(l, i, NO_JUMP)
    {
      if i < |a| {
        assert a[i] in a && GetJump(code, a[i]) == After(a, i, NO_JUMP);
      } else {
        assert b[i - |a|] in b && GetJump(r, b[i - |a|]) == After(b, i - |a|, NO_JUMP);
      }
    }
  }

  /** The code once the pending jumps have been aimed at its end. */
  function Landed(code: seq<Instr>, pending: seq<int>): (r: seq<Instr>)
    requires AllJumps(code, pending)
    ensures |r| == |code|
  {
    Patched(code, pending, |code|, NO_REG, |code|)
  }

  lemma LandedPaired(code: seq<Instr>, pending: seq<int>)
    requires AllJumps(code, pending) && TestsPaired(code)
    ensures TestsPaired(Landed(code, pending))
    ensures forall i :: 0 <= i < |code| && IsTest(Landed(code, pending)[i]) ==> IsTest(code[i])
  {
    PatchedKinds(code, pending, |code|, NO_REG, |code|);
  }

  lemma PatchedNone(code: seq<Instr>, l: seq<int>, vtarget: int, reg: nat, dtarget: int)
    ensures l[..0] == [] && Patched(code, [], vtarget, reg, dtarget) == code
  {
  }

  /** One round of patchlistaux. */
  lemma PatchedStep(code: seq<Instr>, l: seq<int>, k: nat, vtarget: int, reg: nat, dtarget: int)
    requires AllJumps(code, l) && NoDup(l) && k < |l|
    ensures AllJumps(code, l[..k]) && AllJumps(code, l[..k + 1])
    ensures var r, j := Patched(code, l[..k], vtarget, reg, dtarget), l[k];
            var dest := if CarriesValue(code, j) then vtarget else dtarget;
            && IsJump(r, j) && r[j] == code[j] && CarriesValue(r, j) == CarriesValue(code, j)
            && Patched(code, l[..k + 1], vtarget, reg, dtarget)
               == (if CarriesValue(r, j) then r[j - 1 := Retargeted(r[j - 1], reg)] else r)
                    [j := Jmp(code[j].a, dest - (j + 1))]
  {
    var j := l[k];
    assert j in l && j !in l[..k];
    assert forall i :: i in l[..k + 1] <==> i in l[..k] || i == j;
  }
}
