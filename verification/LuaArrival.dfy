/** What exp2reg leaves behind: where every path of the expression goes and what
    it carries there. */
module LuaArrival {
  import opened Sequences
  import opened LuaCode

  /** The code when exp2reg has patched the false list f, then the true list t,
      and the jumps still pending have come to the end. */
  function Finished(base: seq<Instr>, f: seq<int>, t: seq<int>, pending: seq<int>,
                    reg: nat, pf: int, pt: int): (r: seq<Instr>)
    requires AllJumps(base, f) && AllJumps(base, t) && AllJumps(base, pending)
    ensures |r| == |base|
  {
    PatchedKinds(base, f, |base|, reg, pf);
    var one := Patched(base, f, |base|, reg, pf);
    PatchedKinds(one, t, |base|, reg, pt);
    Landed(Patched(one, t, |base|, reg, pt), pending)
  }

  ghost predicate Disjoint(a: seq<int>, b: seq<int>) {
    forall j :: j in a ==> j !in b
  }

  /** A jump of the false list after everything has been patched. */
  lemma FinishedFalse(base: seq<Instr>, f: seq<int>, t: seq<int>, pending: seq<int>,
                      reg: nat, pf: int, pt: int, j: int)
    requires AllJumps(base, f) && AllJumps(base, t) && AllJumps(base, pending)
    requires Disjoint(f, t) && Disjoint(f, pending) && Disjoint(t, pending)
    requires j in f
    ensures var r := Finished(base, f, t, pending, reg, pf, pt);
            && IsJump(base, j)
            && r[j] == Jmp(base[j].a, (if CarriesValue(base, j) then |base| else pf) - (j + 1))
            && (CarriesValue(base, j) ==> r[j - 1] == Retargeted(base[j - 1], reg))
  {
  }

  lemma FinishedTrue(base: seq<Instr>, f: seq<int>, t: seq<int>, pending: seq<int>,
                     reg: nat, pf: int, pt: int, j: int)
    requires AllJumps(base, f) && AllJumps(base, t) && AllJumps(base, pending)
    requires Disjoint(f, t) && Disjoint(f, pending) && Disjoint(t, pending)
    requires j in t
    ensures var r := Finished(base, f, t, pending, reg, pf, pt);
            && IsJump(base, j)
            && r[j] == Jmp(base[j].a, (if CarriesValue(base, j) then |base| else pt) - (j + 1))
            && (CarriesValue(base, j) ==> r[j - 1] == Retargeted(base[j - 1], reg))
  {
    assert j !in f;
  }

  lemma FinishedPending(base: seq<Instr>, f: seq<int>, t: seq<int>, pending: seq<int>,
                        reg: nat, pf: int, pt: int, j: int)
    requires AllJumps(base, f) && AllJumps(base, t) && AllJumps(base, pending)
    requires Disjoint(f, t) && Disjoint(f, pending) && Disjoint(t, pending)
    requires j in pending
    ensures IsJump(base, j)
    ensures Finished(base, f, t, pending, reg, pf, pt)[j] == Jmp(base[j].a, |base| - (j + 1))
    ensures CarriesValue(base, j) ==>
              Finished(base, f, t, pending, reg, pf, pt)[j - 1] == Retargeted(base[j - 1], NO_REG)
  {
    assert j !in f && j !in t;
  }

  /** No other instruction is touched. */
  lemma FinishedElsewhere(base: seq<Instr>, f: seq<int>, t: seq<int>, pending: seq<int>,
                          reg: nat, pf: int, pt: int, i: int)
    requires AllJumps(base, f) && AllJumps(base, t) && AllJumps(base, pending)
    requires 0 <= i < |base| && i !in f && i !in t && i !in pending
    requires base[i].TestSet? ==> i + 1 !in f && i + 1 !in t && i + 1 !in pending
    ensures Finished(base, f, t, pending, reg, pf, pt)[i] == base[i]
  {
  }

  // -------------------------------------------------------------------- frame

  /** Nothing but where the touched jumps lead and their TESTSETs has been changed. */
  ghost predicate Framed(before: seq<Instr>, after: seq<Instr>, touched: seq<int>) {
    && |before| <= |after|
    && (forall i :: 0 <= i < |before| && before[i].Jmp? ==> after[i].Jmp? && after[i].a == before[i].a)
    && forall i {:trigger before[i]} {:trigger after[i]} ::
         0 <= i < |before| && i !in touched && (before[i].TestSet? ==> i + 1 !in touched) ==> after[i] == before[i]
  }

  lemma FramedChain(a: seq<Instr>, b: seq<Instr>, c: seq<Instr>, x: seq<int>, y: seq<int>, all: seq<int>)
    requires Framed(a, b, x) && Framed(b, c, y)
    requires forall j :: 0 <= j <= |a| && (j in x || j in y) ==> j in all
    ensures Framed(a, c, all)
  {
    forall i | 0 <= i < |a| && i !in all && (a[i].TestSet? ==> i + 1 !in all)
      ensures c[i] == a[i]
    {
      assert b[i] == a[i];
    }
  }

  lemma FinishedFrame(base: seq<Instr>, f: seq<int>, t: seq<int>, pending: seq<int>, reg: nat, pf: int, pt: int)
    requires AllJumps(base, f) && AllJumps(base, t) && AllJumps(base, pending)
    ensures Framed(base, Finished(base, f, t, pending, reg, pf, pt), f + t + pending)
  {
    forall i | 0 <= i < |base| && i !in f + t + pending && (base[i].TestSet? ==> i + 1 !in f + t + pending)
      ensures Finished(base, f, t, pending, reg, pf, pt)[i] == base[i]
    {
      FinishedElsewhere(base, f, t, pending, reg, pf, pt, i);
    }
  }

  lemma PendingLand(code: seq<Instr>, pending: seq<int>, more: seq<Instr>)
    requires AllJumps(code, pending)
    ensures forall j :: j in pending ==> LandsAt(code, Landed(code, pending) + more, j, |code|)
    ensures Framed(code, Landed(code, pending) + more, pending)
  {
    forall j | j in pending
      ensures LandsAt(code, Landed(code, pending) + more, j, |code|)
    {
      LandedLands(code, pending, more, j);
    }
  }

  /** A list that has nothing to do with the touched jumps is threaded as before. */
  lemma FrameKeepsList(before: seq<Instr>, after: seq<Instr>, touched: seq<int>, head: int, l: seq<int>)
    requires Framed(before, after, touched) && Threaded(before, head, l) && Disjoint(l, touched)
    ensures Threaded(after, head, l)
  {
    forall i | 0 <= i < |l|
      ensures IsJump(after, l[i]) && GetJump(after, l[i]) == After(l, i, NO_JUMP)
    {
      assert l[i] in l && IsJump(before, l[i]) && GetJump(before, l[i]) == After(l, i, NO_JUMP);
      assert after[l[i]] == before[l[i]];
    }
  }

  // ------------------------------------------------------------------ arrival

  /** From s, control gets to final with v in reg and every other register as in
      s. */
  ghost predicate ArrivesWith(code: seq<Instr>, w: World, s: State, final: int, reg: nat, v: Value) {
    exists n: nat :: HasArrived(Steps(code, w, s, n), s.rs, final, reg, v)
  }

  predicate HasArrived(r: State, rs: Regs, final: int, reg: nat, v: Value) {
    r.pc == final && (r.rs == rs[reg := v] || (r.rs == rs && Get(rs, reg) == v))
  }

  /** Every path through jump j of a list whose meaning is `truth` gets to final:
      a jump that carries a value with that value, any other with true or false;
      a test that fails goes on after its jump with nothing changed. */
  ghost predicate JumpArrives(mid: seq<Instr>, code: seq<Instr>, w: World, j: int, truth: bool, reg: nat, final: int) {
    if CarriesValue(mid, j) then
      var i := mid[j - 1];
      forall rs: Regs ::
        if i.c == IsFalse(Get(rs, i.b)) then Steps(code, w, At(j - 1, rs), 1) == At(j + 1, rs)
        else ArrivesWith(code, w, At(j - 1, rs), final, reg, Get(rs, i.b))
    else
      forall rs: Regs :: ArrivesWith(code, w, At(j, rs), final, reg, Bool(truth))
  }

  /** A jump that has been aimed at the end and whose TESTSET has been given the
      register. */
  lemma ValueJumpArrives(mid: seq<Instr>, code: seq<Instr>, w: World, j: int, truth: bool, reg: nat)
    requires 1 <= j < |code| && j <= |mid| && CarriesValue(mid, j) && reg != NO_REG
    requires code[j - 1] == Retargeted(mid[j - 1], reg)
    requires code[j].Jmp? && code[j].sbx == |code| - (j + 1)
    ensures JumpArrives(mid, code, w, j, truth, reg, |code|)
  {
    var i := mid[j - 1];
    forall rs: Regs
      ensures if i.c == IsFalse(Get(rs, i.b)) then Steps(code, w, At(j - 1, rs), 1) == At(j + 1, rs)
              else ArrivesWith(code, w, At(j - 1, rs), |code|, reg, Get(rs, i.b))
    {
      var s := Step(code, w, At(j - 1, rs));
      assert Steps(code, w, At(j - 1, rs), 1) == Steps(code, w, s, 0) == s;
      if i.c != IsFalse(Get(rs, i.b)) {
        assert Steps(code, w, At(j - 1, rs), 2) == Steps(code, w, s, 1);
        assert Steps(code, w, s, 1) == Steps(code, w, Step(code, w, s), 0);
        assert HasArrived(Steps(code, w, At(j - 1, rs), 2), rs, |code|, reg, Get(rs, i.b));
      }
    }
  }

  /** A jump to a LOADBOOL that leads to the end. */
  lemma LoadJumpArrives(mid: seq<Instr>, code: seq<Instr>, w: World, j: int, truth: bool, reg: nat, load: int)
    requires 0 <= j < |code| && !CarriesValue(mid, j)
    requires code[j].Jmp? && code[j].sbx == load - (j + 1)
    requires LoadsAndEnds(code, load, reg, truth)
    ensures JumpArrives(mid, code, w, j, truth, reg, |code|)
  {
    forall rs: Regs
      ensures ArrivesWith(code, w, At(j, rs), |code|, reg, Bool(truth))
    {
      assert Steps(code, w, At(j, rs), 2) == Steps(code, w, At(load, rs), 1);
      LoadArrives(code, w, rs, reg, truth, load);
      assert HasArrived(Steps(code, w, At(j, rs), 2), rs, |code|, reg, Bool(truth));
    }
  }

  predicate LoadsAndEnds(code: seq<Instr>, load: int, reg: nat, truth: bool) {
    && 0 <= load < |code| && code[load].LoadBool? && code[load].a == reg && code[load].truth == truth
    && load + (if code[load].skip then 2 else 1) == |code|
  }

  lemma LoadArrives(code: seq<Instr>, w: World, rs: Regs, reg: nat, truth: bool, load: int)
    requires LoadsAndEnds(code, load, reg, truth)
    ensures Steps(code, w, At(load, rs), 1) == At(|code|, rs[reg := Bool(truth)])
    ensures ArrivesWith(code, w, At(load, rs), |code|, reg, Bool(truth))
  {
    assert Steps(code, w, At(load, rs), 1) == Steps(code, w, Step(code, w, At(load, rs)), 0);
    assert HasArrived(Steps(code, w, At(load, rs), 1), rs, |code|, reg, Bool(truth));
  }

  /** What exp2reg starts from: the code after the expression has been discharged
      and the jumps pending there, its true and false lists, and the jump of a
      comparison, if that is what it is. */
  datatype Expr = Expr(mid: seq<Instr>, held: seq<int>, t: seq<int>, f: seq<int>, comparison: bool)

  /** The value the expression has when control falls out of its code. */
  function FallValue(e: Expr, rs: Regs, reg: nat): (v: Value) {
    if e.comparison then Bool(false) else Get(rs, reg)
  }

  /** The promise of exp2reg: every path through the true list, the false list,
      the jumps pending before it or fall-through gets to the end of the code,
      with the value of the expression in reg and all else unchanged; the tests of the
      jumps pending before it decide as they did and put their values nowhere. */
  ghost predicate ExprArrives(e: Expr, code: seq<Instr>, w: World, reg: nat) {
    && (forall j :: j in e.f ==> JumpArrives(e.mid, code, w, j, false, reg, |code|))
    && (forall j :: j in e.t ==> JumpArrives(e.mid, code, w, j, true, reg, |code|))
    && (forall rs: Regs :: ArrivesWith(code, w, At(|e.mid|, rs), |code|, reg, FallValue(e, rs, reg)))
    && (forall j, rs: Regs :: j in e.held ==>
          ArrivesWith(code, w, At(j, rs), |code|, reg, FallValue(e, rs, reg)))
    && (forall j :: j in e.held && CarriesValue(e.mid, j) ==> TestsOnly(e.mid[j - 1], code, j - 1))
  }

  /** Base agrees with mid about the jumps of l and their controls. */
  ghost predicate Agrees(mid: seq<Instr>, base: seq<Instr>, l: seq<int>) {
    && AllJumps(base, l)
    && forall j :: j in l ==>
         (CarriesValue(base, j) == CarriesValue(mid, j)) && (CarriesValue(mid, j) ==> base[j - 1] == mid[j - 1])
  }

  /** If the list has a jump without a value, its LOADBOOL is in place. */
  ghost predicate LoadReady(base: seq<Instr>, l: seq<int>, reg: nat, truth: bool, load: int) {
    (exists j :: j in l && !CarriesValue(base, j)) ==> LoadsAndEnds(base, load, reg, truth)
  }

  lemma FalseListArrives(mid: seq<Instr>, base: seq<Instr>, f: seq<int>, t: seq<int>, pending: seq<int>,
                         reg: nat, pf: int, pt: int, w: World, j: int)
    requires Agrees(mid, base, f) && AllJumps(base, t) && AllJumps(base, pending)
    requires Disjoint(f, t) && Disjoint(f, pending) && Disjoint(t, pending)
    requires LoadReady(base, f, reg, false, pf) && reg != NO_REG && j in f
    ensures JumpArrives(mid, Finished(base, f, t, pending, reg, pf, pt), w, j, false, reg, |base|)
  {
    var code := Finished(base, f, t, pending, reg, pf, pt);
    FinishedFalse(base, f, t, pending, reg, pf, pt, j);
    if CarriesValue(mid, j) {
      ValueJumpArrives(mid, code, w, j, false, reg);
    } else {
      FinishedElsewhere(base, f, t, pending, reg, pf, pt, pf);
      LoadJumpArrives(mid, code, w, j, false, reg, pf);
    }
  }

  lemma TrueListArrives(mid: seq<Instr>, base: seq<Instr>, f: seq<int>, t: seq<int>, pending: seq<int>,
                        reg: nat, pf: int, pt: int, w: World, j: int)
    requires Agrees(mid, base, t) && AllJumps(base, f) && AllJumps(base, pending)
    requires Disjoint(f, t) && Disjoint(f, pending) && Disjoint(t, pending)
    requires LoadReady(base, t, reg, true, pt) && reg != NO_REG && j in t
    ensures JumpArrives(mid, Finished(base, f, t, pending, reg, pf, pt), w, j, true, reg, |base|)
  {
    var code := Finished(base, f, t, pending, reg, pf, pt);
    FinishedTrue(base, f, t, pending, reg, pf, pt, j);
    if CarriesValue(mid, j) {
      ValueJumpArrives(mid, code, w, j, true, reg);
    } else {
      FinishedElsewhere(base, f, t, pending, reg, pf, pt, pt);
      LoadJumpArrives(mid, code, w, j, true, reg, pt);
    }
  }

  lemma ListsArrive(e: Expr, base: seq<Instr>, pending: seq<int>, reg: nat, pf: int, pt: int, w: World)
    requires Agrees(e.mid, base, e.f) && Agrees(e.mid, base, e.t) && AllJumps(base, pending)
    requires Disjoint(e.f, e.t) && Disjoint(e.f, pending) && Disjoint(e.t, pending)
    requires LoadReady(base, e.f, reg, false, pf) && LoadReady(base, e.t, reg, true, pt) && reg != NO_REG
    ensures var code := Finished(base, e.f, e.t, pending, reg, pf, pt);
            && (forall j :: j in e.f ==> JumpArrives(e.mid, code, w, j, false, reg, |code|))
            && (forall j :: j in e.t ==> JumpArrives(e.mid, code, w, j, true, reg, |code|))
  {
    var code := Finished(base, e.f, e.t, pending, reg, pf, pt);
    forall j | j in e.f
      ensures JumpArrives(e.mid, code, w, j, false, reg, |code|)
    {
      FalseListArrives(e.mid, base, e.f, e.t, pending, reg, pf, pt, w, j);
    }
    forall j | j in e.t
      ensures JumpArrives(e.mid, code, w, j, true, reg, |code|)
    {
      TrueListArrives(e.mid, base, e.f, e.t, pending, reg, pf, pt, w, j);
    }
  }

  /** Nothing to load: every jump carries its value, and falling out of the code
      is already arriving. */
  lemma ArrivesWithoutLoads(e: Expr, reg: nat, pf: int, pt: int, w: World)
    requires AllJumps(e.mid, e.f) && AllJumps(e.mid, e.t) && AllJumps(e.mid, e.held) && reg != NO_REG
    requires Disjoint(e.f, e.t) && Disjoint(e.f, e.held) && Disjoint(e.t, e.held)
    requires forall j :: j in e.f || j in e.t ==> CarriesValue(e.mid, j)
    requires !e.comparison
    ensures ExprArrives(e, Finished(e.mid, e.f, e.t, e.held, reg, pf, pt), w, reg)
  {
    var code := Finished(e.mid, e.f, e.t, e.held, reg, pf, pt);
    ListsArrive(e, e.mid, e.held, reg, pf, pt, w);
    forall rs: Regs
      ensures ArrivesWith(code, w, At(|e.mid|, rs), |code|, reg, FallValue(e, rs, reg))
    {
      assert HasArrived(Steps(code, w, At(|e.mid|, rs), 0), rs, |code|, reg, Get(rs, reg));
    }
    forall j, rs: Regs | j in e.held
      ensures ArrivesWith(code, w, At(j, rs), |code|, reg, FallValue(e, rs, reg))
    {
      FinishedPending(e.mid, e.f, e.t, e.held, reg, pf, pt, j);
      JumpToEnd(code, w, j, rs, reg);
    }
    forall j | j in e.held && CarriesValue(e.mid, j)
      ensures TestsOnly(e.mid[j - 1], code, j - 1)
    {
      FinishedPending(e.mid, e.f, e.t, e.held, reg, pf, pt, j);
      TestIsOnly(e.mid[j - 1], code, j - 1);
    }
  }

  lemma JumpToEnd(code: seq<Instr>, w: World, j: int, rs: Regs, reg: nat)
    requires IsJump(code, j) && code[j].sbx == |code| - (j + 1)
    ensures ArrivesWith(code, w, At(j, rs), |code|, reg, Get(rs, reg))
  {
    assert Steps(code, w, At(j, rs), 1) == Steps(code, w, Step(code, w, At(j, rs)), 0);
    assert HasArrived(Steps(code, w, At(j, rs), 1), rs, |code|, reg, Get(rs, reg));
  }

  function Loads(reg: nat): (r: seq<Instr>) {
    [LoadBool(reg, false, true), LoadBool(reg, true, false)]
  }

  /** The code before patching when loads are needed and control falls out of the
      expression: a jump over the loads, which takes the pending jumps along. */
  function FallBase(mid: seq<Instr>, jpc: int, reg: nat): (r: seq<Instr>)
    ensures |r| == |mid| + 3
    ensures forall i :: 0 <= i < |mid| ==> r[i] == mid[i]
    ensures r[|mid|].Jmp? && r[|mid| + 1] == Loads(reg)[0] && r[|mid| + 2] == Loads(reg)[1]
  {
    var j := |mid|;
    assert AllJumps(mid + [Jmp(0, NO_JUMP)], [j]);
    Hooked(mid + [Jmp(0, NO_JUMP)], [j], jpc) + Loads(reg)
  }

  lemma FallBaseKeepsList(mid: seq<Instr>, jpc: int, reg: nat, head: int, l: seq<int>)
    requires Threaded(mid, head, l)
    ensures Threaded(FallBase(mid, jpc, reg), head, l)
  {
    var j := |mid|;
    var one := mid + [Jmp(0, NO_JUMP)];
    GrowKeepsList(mid, [Jmp(0, NO_JUMP)], head, l);
    assert AllJumps(one, [j]);
    HookedKeepsList(one, [j], jpc, head, l);
    GrowKeepsList(Hooked(one, [j], jpc), Loads(reg), head, l);
  }

  /** Lists that share their head are both empty. */
  lemma NoListsNoJumps(code: seq<Instr>, head: int, t: seq<int>, f: seq<int>, pending: seq<int>, reg: nat)
    requires Threaded(code, head, t) && Threaded(code, head, f) && Disjoint(f, t) && AllJumps(code, pending)
    ensures t == [] && f == []
    ensures Finished(code, f, t, pending, reg, NO_JUMP, NO_JUMP) == Landed(code, pending)
  {
    ThreadedHead(code, head, t);
    ThreadedHead(code, head, f);
    PatchedNone(code, [], |code|, reg, NO_JUMP);
  }

  lemma ArrivesPastLoads(e: Expr, jpc: int, reg: nat, w: World)
    requires AllJumps(e.mid, e.f) && AllJumps(e.mid, e.t) && AllJumps(e.mid, e.held) && reg != NO_REG
    requires Disjoint(e.f, e.t) && Disjoint(e.f, e.held) && Disjoint(e.t, e.held)
    requires !e.comparison
    ensures var base, p := FallBase(e.mid, jpc, reg), |e.mid|;
            && AllJumps(base, e.f) && AllJumps(base, e.t) && AllJumps(base, [p] + e.held)
            && ExprArrives(e, Finished(base, e.f, e.t, [p] + e.held, reg, p + 1, p + 2), w, reg)
  {
    var base, p := FallBase(e.mid, jpc, reg), |e.mid|;
    var pending := [p] + e.held;
    assert forall j :: j in pending <==> j == p || j in e.held;
    var code := Finished(base, e.f, e.t, pending, reg, p + 1, p + 2);
    ListsArrive(e, base, pending, reg, p + 1, p + 2, w);
    forall j, rs: Regs | j in pending
      ensures ArrivesWith(code, w, At(j, rs), |code|, reg, FallValue(e, rs, reg))
    {
      FinishedPending(base, e.f, e.t, pending, reg, p + 1, p + 2, j);
      JumpToEnd(code, w, j, rs, reg);
    }
    assert p in pending;
    forall j | j in e.held && CarriesValue(e.mid, j)
      ensures TestsOnly(e.mid[j - 1], code, j - 1)
    {
      assert IsJump(e.mid, j) && j in pending;
      FinishedPending(base, e.f, e.t, pending, reg, p + 1, p + 2, j);
      TestIsOnly(e.mid[j - 1], code, j - 1);
    }
  }

  /** The loads and the jump over them come behind the code, which ends in no test. */
  lemma FallFrame(mid: seq<Instr>, f: seq<int>, t: seq<int>, held: seq<int>, jpc: int, reg: nat, pf: int, pt: int)
    requires AllJumps(mid, f) && AllJumps(mid, t) && AllJumps(mid, held) && TestsPaired(mid)
    ensures var base := FallBase(mid, jpc, reg);
            && AllJumps(base, f) && AllJumps(base, t) && AllJumps(base, [|mid|] + held)
            && Framed(mid, Finished(base, f, t, [|mid|] + held, reg, pf, pt), f + t + held)
  {
    var base, pending := FallBase(mid, jpc, reg), [|mid|] + held;
    assert AllJumps(base, f) && AllJumps(base, t) && AllJumps(base, pending);
    FinishedFrame(base, f, t, pending, reg, pf, pt);
    forall i | 0 <= i < |mid| && i !in f + t + held && (mid[i].TestSet? ==> i + 1 !in f + t + held)
      ensures Finished(base, f, t, pending, reg, pf, pt)[i] == mid[i]
    {
      assert IsTest(mid[i]) ==> i + 1 < |mid|;
      assert base[i] == mid[i];
    }
  }

  /** The code before patching for a comparison: its own jump has joined the true
      list t, the pending jumps land on the load of false. */
  function CompareBase(mid: seq<Instr>, t: seq<int>, info: int, held: seq<int>, reg: nat): (r: seq<Instr>)
    requires AllJumps(mid, t) && AllJumps(mid, held)
    ensures |r| == |mid| + 2
  {
    Landed(Hooked(mid, t, info), held) + Loads(reg)
  }

  lemma CompareBaseAgrees(mid: seq<Instr>, t: seq<int>, info: int, held: seq<int>, reg: nat, l: seq<int>)
    requires AllJumps(mid, t) && AllJumps(mid, held) && AllJumps(mid, l) && Disjoint(l, held)
    ensures Agrees(mid, CompareBase(mid, t, info, held, reg), l)
  {
    var hooked := Hooked(mid, t, info);
    var base := CompareBase(mid, t, info, held, reg);
    forall j | j in l
      ensures IsJump(base, j) && CarriesValue(base, j) == CarriesValue(mid, j)
      ensures CarriesValue(mid, j) ==> base[j - 1] == mid[j - 1]
    {
      assert IsJump(mid, j) && hooked[j].Jmp?;
      if j >= 1 {
        assert base[j - 1] == PatchedAt(hooked, held, |hooked|, NO_REG, |hooked|, j - 1);
      }
    }
  }

  lemma CompareBaseTests(mid: seq<Instr>, t: seq<int>, info: int, held: seq<int>, reg: nat, j: int)
    requires AllJumps(mid, t) && AllJumps(mid, held) && j in held && CarriesValue(mid, j)
    ensures CompareBase(mid, t, info, held, reg)[j - 1] == Retargeted(mid[j - 1], NO_REG)
  {
    var hooked := Hooked(mid, t, info);
    assert IsJump(mid, j) && hooked[j].Jmp? && hooked[j - 1] == mid[j - 1];
    assert CompareBase(mid, t, info, held, reg)[j - 1] == PatchedAt(hooked, held, |hooked|, NO_REG, |hooked|, j - 1);
  }

  lemma CompareFrame(mid: seq<Instr>, f: seq<int>, t: seq<int>, info: int, held: seq<int>, reg: nat, pf: int, pt: int)
    requires AllJumps(mid, f) && AllJumps(mid, t + [info]) && AllJumps(mid, t) && AllJumps(mid, held)
    ensures var base := CompareBase(mid, t, info, held, reg);
            && AllJumps(base, f) && AllJumps(base, t + [info])
            && Framed(mid, Finished(base, f, t + [info], [], reg, pf, pt), f + (t + [info]) + held)
  {
    var base := CompareBase(mid, t, info, held, reg);
    assert forall i :: 0 <= i < |mid| && mid[i].Jmp? ==> base[i].Jmp?;
    assert Framed(mid, base, t + held);
    FinishedFrame(base, f, t + [info], [], reg, pf, pt);
    FramedChain(mid, base, Finished(base, f, t + [info], [], reg, pf, pt), t + held, f + (t + [info]) + [],
                f + (t + [info]) + held);
  }

  lemma ArrivesFromComparison(e: Expr, t: seq<int>, info: int, reg: nat, w: World)
    requires e.comparison && e.t == t + [info] && reg != NO_REG
    requires AllJumps(e.mid, e.f) && AllJumps(e.mid, e.t) && AllJumps(e.mid, t) && AllJumps(e.mid, e.held)
    requires Disjoint(e.f, e.t) && Disjoint(e.f, e.held) && Disjoint(e.t, e.held)
    ensures var base, p := CompareBase(e.mid, t, info, e.held, reg), |e.mid|;
            && AllJumps(base, e.f) && AllJumps(base, e.t)
            && ExprArrives(e, Finished(base, e.f, e.t, [], reg, p, p + 1), w, reg)
  {
    var base, p := CompareBase(e.mid, t, info, e.held, reg), |e.mid|;
    CompareBaseAgrees(e.mid, t, info, e.held, reg, e.f);
    CompareBaseAgrees(e.mid, t, info, e.held, reg, e.t);
    var code := Finished(base, e.f, e.t, [], reg, p, p + 1);
    ListsArrive(e, base, [], reg, p, p + 1, w);
    FinishedElsewhere(base, e.f, e.t, [], reg, p, p + 1, p);
    forall rs: Regs
      ensures ArrivesWith(code, w, At(p, rs), |code|, reg, Bool(false))
    {
      LoadArrives(code, w, rs, reg, false, p);
    }
    forall j, rs: Regs | j in e.held
      ensures ArrivesWith(code, w, At(j, rs), |code|, reg, Bool(false))
    {
      assert IsJump(e.mid, j);
      FinishedElsewhere(base, e.f, e.t, [], reg, p, p + 1, j);
      JumpToLoad(code, w, j, rs, reg, p);
    }
    forall j | j in e.held && CarriesValue(e.mid, j)
      ensures TestsOnly(e.mid[j - 1], code, j - 1)
    {
      CompareBaseTests(e.mid, t, info, e.held, reg, j);
      FinishedElsewhere(base, e.f, e.t, [], reg, p, p + 1, j - 1);
      TestIsOnly(e.mid[j - 1], code, j - 1);
    }
  }

  /** Every path arrives, and nothing but the jumps of the expression has been changed. */
  ghost predicate Settled(e: Expr, code: seq<Instr>, reg: nat) {
    Framed(e.mid, code, e.f + e.t + e.held) && forall w: World :: ExprArrives(e, code, w, reg)
  }

  /** What exp2reg leaves when loads are needed and control falls out. */
  lemma SettledPastLoads(e: Expr, jpc: int, reg: nat)
    requires AllJumps(e.mid, e.f) && AllJumps(e.mid, e.t) && AllJumps(e.mid, e.held) && reg != NO_REG
    requires Disjoint(e.f, e.t) && Disjoint(e.f, e.held) && Disjoint(e.t, e.held)
    requires !e.comparison && TestsPaired(e.mid)
    ensures var base, p := FallBase(e.mid, jpc, reg), |e.mid|;
            && AllJumps(base, e.f) && AllJumps(base, e.t) && AllJumps(base, [p] + e.held)
            && Settled(e, Finished(base, e.f, e.t, [p] + e.held, reg, p + 1, p + 2), reg)
  {
    var base, p := FallBase(e.mid, jpc, reg), |e.mid|;
    FallFrame(e.mid, e.f, e.t, e.held, jpc, reg, p + 1, p + 2);
    var code := Finished(base, e.f, e.t, [p] + e.held, reg, p + 1, p + 2);
    forall w: World
      ensures ExprArrives(e, code, w, reg)
    {
      ArrivesPastLoads(e, jpc, reg, w);
    }
  }

  lemma SettledFromComparison(e: Expr, t: seq<int>, info: int, reg: nat)
    requires e.comparison && e.t == t + [info] && reg != NO_REG
    requires AllJumps(e.mid, e.f) && AllJumps(e.mid, e.t) && AllJumps(e.mid, t) && AllJumps(e.mid, e.held)
    requires Disjoint(e.f, e.t) && Disjoint(e.f, e.held) && Disjoint(e.t, e.held)
    ensures var base, p := CompareBase(e.mid, t, info, e.held, reg), |e.mid|;
            && AllJumps(base, e.f) && AllJumps(base, e.t)
            && Settled(e, Finished(base, e.f, e.t, [], reg, p, p + 1), reg)
  {
    var base, p := CompareBase(e.mid, t, info, e.held, reg), |e.mid|;
    CompareFrame(e.mid, e.f, t, info, e.held, reg, p, p + 1);
    var code := Finished(base, e.f, e.t, [], reg, p, p + 1);
    forall w: World
      ensures ExprArrives(e, code, w, reg)
    {
      ArrivesFromComparison(e, t, info, reg, w);
    }
  }

  lemma JumpToLoad(code: seq<Instr>, w: World, j: int, rs: Regs, reg: nat, load: int)
    requires IsJump(code, j) && code[j].sbx == load - (j + 1) && LoadsAndEnds(code, load, reg, false)
    ensures ArrivesWith(code, w, At(j, rs), |code|, reg, Bool(false))
  {
    assert Steps(code, w, At(j, rs), 2) == Steps(code, w, At(load, rs), 1);
    LoadArrives(code, w, rs, reg, false, load);
    assert HasArrived(Steps(code, w, At(j, rs), 2), rs, |code|, reg, Bool(false));
  }

  // ---------------------------------------------------------------- discharge

  datatype ExpKind = VVoid | VNil | VTrue | VFalse | VK | VRelocable | VNonReloc | VJmp

  /** One more instruction, which puts v(rs) into reg. */
  ghost predicate Appends(before: seq<Instr>, after: seq<Instr>, w: World, reg: nat, v: Regs -> Value) {
    && |after| == |before| + 1
    && forall rs: Regs :: Steps(after, w, At(|before|, rs), 1) == At(|after|, rs[reg := v(rs)])
  }

  function AfterNil(rs: Regs, i: Instr): (r: Regs)
    requires i.LoadNil?
  {
    ClearRange(rs, i.a, i.b + 1)
  }

  /** A LOADNIL that does what another and then clearing n registers did. */
  ghost predicate ClearsBoth(prev: Instr, from: nat, n: nat, merged: Instr) {
    && prev.LoadNil? && merged.LoadNil?
    && forall rs: Regs, r: nat :: Get(AfterNil(rs, merged), r) == Get(ClearRange(AfterNil(rs, prev), from, n), r)
  }

  /** What discharge2reg does for an expression of kind k: its value gets into
      reg, by a new instruction or by changing the one that computes it. */
  ghost predicate Discharged(k: ExpKind, info: int, reg: nat, before: seq<Instr>, after: seq<Instr>, w: World) {
    match k
    case VVoid => after == before
    case VJmp => after == before
    case VNonReloc =>
      if info == reg then after == before
      else info >= 0 && Appends(before, after, w, reg, (rs: Regs) => Get(rs, info))
    case VTrue => Appends(before, after, w, reg, (rs: Regs) => Bool(true))
    case VFalse => Appends(before, after, w, reg, (rs: Regs) => Bool(false))
    case VK => info >= 0 && Appends(before, after, w, reg, (rs: Regs) => Datum(info))
    case VRelocable =>
      && 0 <= info < |before| && before[info].Other?
      && after == before[info := Other(reg, before[info].what)]
    case VNil =>
      || Appends(before, after, w, reg, (rs: Regs) => Nil)
      || (before != [] && |after| == |before| && after == before[|before| - 1 := after[|before| - 1]]
          && ClearsBoth(before[|before| - 1], reg, 1, after[|before| - 1]))
  }

  lemma AppendsLast(before: seq<Instr>, landed: seq<Instr>, i: Instr, w: World, reg: nat, v: Regs -> Value)
    requires |landed| == |before|
    requires forall rs: Regs :: Step(landed + [i], w, At(|before|, rs)) == At(|before| + 1, rs[reg := v(rs)])
    ensures Appends(before, landed + [i], w, reg, v)
  {
    var after := landed + [i];
    forall rs: Regs
      ensures Steps(after, w, At(|before|, rs), 1) == At(|after|, rs[reg := v(rs)])
    {
      assert Steps(after, w, At(|before|, rs), 1) == Steps(after, w, Step(after, w, At(|before|, rs)), 0);
    }
  }

  /** Replacing an instruction that is neither jump nor test by another such. */
  lemma ReplaceKeepsList(code: seq<Instr>, pc: int, i: Instr, head: int, l: seq<int>)
    requires Threaded(code, head, l) && 0 <= pc < |code|
    requires !code[pc].Jmp? && !IsTest(code[pc]) && !IsTest(i) && !i.Jmp?
    ensures Threaded(code[pc := i], head, l)
    ensures TestsPaired(code) ==> TestsPaired(code[pc := i])
    ensures forall j :: j in l ==> CarriesValue(code[pc := i], j) == CarriesValue(code, j)
  {
    ReplaceKeepsControls(code, pc, i);
    var r := code[pc := i];
    hide CarriesValue, TestsPaired, IsTest;
    forall k | 0 <= k < |l|
      ensures IsJump(r, l[k]) && GetJump(r, l[k]) == After(l, k, NO_JUMP)
    {
      assert l[k] in l && IsJump(code, l[k]) && GetJump(code, l[k]) == After(l, k, NO_JUMP);
    }
  }

  lemma ReplaceKeepsControls(code: seq<Instr>, pc: int, i: Instr)
    requires 0 <= pc < |code| && !code[pc].Jmp? && !IsTest(code[pc]) && !IsTest(i) && !i.Jmp?
    ensures TestsPaired(code) ==> TestsPaired(code[pc := i])
    ensures forall j :: IsJump(code, j) ==> CarriesValue(code[pc := i], j) == CarriesValue(code, j)
  {
    forall j | IsJump(code, j)
      ensures CarriesValue(code[pc := i], j) == CarriesValue(code, j)
    {
      assert j - 1 == pc ==> !code[pc].TestSet? && !i.TestSet?;
    }
  }

  /** Landing the pending jumps and appending an instruction. */
  lemma LandKeepsList(code: seq<Instr>, pending: seq<int>, more: seq<Instr>, head: int, l: seq<int>)
    requires Threaded(code, head, l) && AllJumps(code, pending) && Disjoint(l, pending)
    ensures Threaded(Landed(code, pending) + more, head, l)
    ensures forall j :: j in l ==>
              CarriesValue(Landed(code, pending) + more, j) == CarriesValue(code, j)
  {
    PatchedKeepsList(code, pending, |code|, NO_REG, |code|, head, l);
    GrowKeepsList(Landed(code, pending), more, head, l);
  }

  /** Discharging an expression either lands the pending jumps and appends one
      instruction, or changes one instruction, neither jump nor test, in place. */
  ghost predicate Moderate(before: seq<Instr>, pending: seq<int>, after: seq<Instr>) {
    || after == before
    || (|after| == |before| + 1 && AllJumps(before, pending)
        && after == Landed(before, pending) + [after[|before|]] && !IsTest(after[|before|]))
    || (exists pc, i :: Replaced(before, after, pc, i))
  }

  predicate Replaced(before: seq<Instr>, after: seq<Instr>, pc: int, i: Instr) {
    && 0 <= pc < |before| && after == before[pc := i]
    && !before[pc].Jmp? && !IsTest(before[pc]) && !IsTest(i) && !i.Jmp?
  }

  lemma ModerateLands(before: seq<Instr>, pending: seq<int>, after: seq<Instr>, j: int)
    requires Moderate(before, pending, after) && |after| == |before| + 1 && j in pending
    ensures LandsAt(before, after, j, |before|)
  {
    LandedLands(before, pending, [after[|before|]], j);
  }

  lemma DischargedKeeps(before: seq<Instr>, pending: seq<int>, after: seq<Instr>, head: int, l: seq<int>)
    requires Moderate(before, pending, after) && Threaded(before, head, l) && Disjoint(l, pending)
    ensures Threaded(after, head, l)
    ensures forall j :: j in l ==> CarriesValue(after, j) == CarriesValue(before, j)
  {
    if after == before {
    } else if |after| == |before| + 1 {
      LandKeepsList(before, pending, [after[|before|]], head, l);
    } else {
      var pc, i :| Replaced(before, after, pc, i);
      ReplaceKeepsList(before, pc, i, head, l);
    }
  }

  /** Lists that have nothing to do with the expression. */
  lemma OthersThreaded(e: Expr, before: seq<Instr>, pending: seq<int>, after: seq<Instr>, reg: nat)
    requires Moderate(before, pending, e.mid) && Settled(e, after, reg) && (e.held == pending || e.held == [])
    ensures forall head, l :: Threaded(before, head, l) && Disjoint(l, e.f + e.t + pending) ==>
              Threaded(after, head, l)
  {
    forall head, l | Threaded(before, head, l) && Disjoint(l, e.f + e.t + pending)
      ensures Threaded(after, head, l)
    {
      DischargedKeeps(before, pending, e.mid, head, l);
      FrameKeepsList(e.mid, after, e.f + e.t + e.held, head, l);
    }
  }

  /** The instruction discharge2reg emits for kind k. */
  function Emission(k: ExpKind, info: nat, reg: nat): (i: Instr)
    requires k.VNonReloc? || k.VTrue? || k.VFalse? || k.VK? || k.VNil?
    ensures !IsTest(i)
  {
    match k
    case VNonReloc => Move(reg, info)
    case VTrue => LoadBool(reg, true, false)
    case VFalse => LoadBool(reg, false, false)
    case VK => LoadK(reg, info)
    case VNil => LoadNil(reg, 0)
  }

  lemma EmissionMeans(k: ExpKind, info: nat, reg: nat, before: seq<Instr>, pending: seq<int>, w: World)
    requires AllJumps(before, pending)
    requires k.VNonReloc? || k.VTrue? || k.VFalse? || k.VK? || k.VNil?
    requires k.VNonReloc? ==> info != reg
    ensures Discharged(k, info, reg, before, Landed(before, pending) + [Emission(k, info, reg)], w)
  {
    var landed, i := Landed(before, pending), Emission(k, info, reg);
    match k
    case VNonReloc => AppendsLast(before, landed, i, w, reg, (rs: Regs) => Get(rs, info));
    case VTrue => AppendsLast(before, landed, i, w, reg, (rs: Regs) => Bool(true));
    case VFalse => AppendsLast(before, landed, i, w, reg, (rs: Regs) => Bool(false));
    case VK => AppendsLast(before, landed, i, w, reg, (rs: Regs) => Datum(info));
    case VNil =>
      forall rs: Regs
        ensures ClearRange(rs, reg, 1) == rs[reg := Nil]
      {
        assert ClearRange(rs, reg, 1) == ClearRange(rs, reg, 0)[reg := Nil];
      }
      AppendsLast(before, landed, i, w, reg, (rs: Regs) => Nil);
  }
}
