/** The part of lcode.c that threads, patches and places jumps. "Control
    structure too long" aborts the compilation; here the method returns false
    and says nothing about the code. */
module LuaGen {
  import opened Sequences
  import opened LuaCode
  import opened LuaArrival

  class FuncState {
    var code: seq<Instr>       // f->code[0 .. pc]
    var jpc: int               // list of jumps to the next instruction
    var lasttarget: int
    ghost var pending: seq<int>  // the jumps of jpc

    ghost predicate Valid()
      reads this
    {
      && Threaded(code, jpc, pending)
      && TestsPaired(code)
      && 0 <= lasttarget <= |code|
      && (pending != [] ==> lasttarget == |code|)
    }

    /** The true and false lists of an expression, apart from each other and from
        the pending jumps. */
    ghost predicate Lists(e: ExpDesc, t: seq<int>, f: seq<int>)
      reads this, e
    {
      && Threaded(code, e.t, t) && Threaded(code, e.f, f)
      && Disjoint(f, t) && Disjoint(t, pending) && Disjoint(f, pending)
    }

    /** What the parser hands to exp2reg: a comparison's jump stands alone and its
        test is not a TESTSET. */
    ghost predicate Described(e: ExpDesc, t: seq<int>, f: seq<int>)
      reads this, e
    {
      && Lists(e, t, f)
      && (e.k.VRelocable? ==> 0 <= e.info < |code| && code[e.info].Other?)
      && (e.k.VK? || e.k.VNonReloc? || e.k.VTrue? || e.k.VFalse? ==> e.info >= 0)
      && (e.k.VJmp? ==>
            && Threaded(code, e.info, [e.info]) && !CarriesValue(code, e.info)
            && e.info !in t && e.info !in f && e.info !in pending)
    }

    method FixJump(pc: int, dest: int) returns (ok: bool)
      requires IsJump(code, pc) && dest >= 0
      modifies this`code
      ensures ok <==> -0x2_0000 < dest - (pc + 1) < 0x2_0000
      ensures code == if ok then old(code)[pc := Jmp(old(code)[pc].a, dest - (pc + 1))] else old(code)
    {
      var offset := dest - (pc + 1);
      if offset < -MAXARG_SBX || offset > MAXARG_SBX {
        return false;
      }
      code := code[pc := Jmp(code[pc].a, offset)];
      return true;
    }

    /** luaK_concat: yields exactly l1 followed by l2. */
    method Concat(l1: int, l2: int, ghost a: seq<int>, ghost b: seq<int>) returns (l: int, ok: bool)
      requires Threaded(code, l1, a) && Threaded(code, l2, b)
      requires forall j :: j in a ==> j !in b
      modifies this`code
      ensures ok ==> Threaded(code, l, a + b)
      ensures ok ==> code == Hooked(old(code), a, l2)
      ensures |old(code)| <= MAXARG_SBX ==> ok
    {
      ThreadedHead(code, l1, a);
      ThreadedHead(code, l2, b);
      if l2 == NO_JUMP {
        assert a + b == a;
        return l1, true;
      } else if l1 == NO_JUMP {
        assert a + b == b;
        return l2, true;
      }
      var list := l1;
      ghost var i := 0;
      ThreadedWalk(code, l1, a, 0);
      while GetJump(code, list) != NO_JUMP
        invariant code == old(code)
        invariant 0 <= i < |a| && list == a[i] && IsJump(code, list)
        decreases |a| - i
      {
        ThreadedWalk(code, l1, a, i);
        ThreadedWalk(code, l1, a, i + 1);
        list := GetJump(code, list);
        i := i + 1;
      }
      ThreadedWalk(code, l1, a, i);
      ThreadedWalk(code, l1, a, i + 1);
      HookedThreads(code, l1, l2, a, b);
      assert b[0] in b;
      ok := FixJump(list, l2);
      l := l1;
    }

    /** patchtestreg. */
    method PatchTestReg(node: int, reg: nat) returns (carries: bool)
      requires IsJump(code, node)
      modifies this`code
      ensures carries == CarriesValue(old(code), node)
      ensures code == if carries then old(code)[node - 1 := Retargeted(old(code)[node - 1], reg)] else old(code)
      ensures carries ==> TestsAs(old(code)[node - 1], code, node - 1, reg)
    {
      // getjumpcontrol: the test before the jump, or else the jump itself
      var control := if node >= 1 && IsTest(code[node - 1]) then node - 1 else node;
      var i := code[control];
      if !i.TestSet? {
        return false;
      }
      RetargetedTests(i, code[control := Retargeted(i, reg)], control, reg);
      if reg != NO_REG && reg != i.b {
        code := code[control := TestSet(reg, i.b, i.c)];
      } else {
        code := code[control := Test(i.b, i.c)];
      }
      return true;
    }

    /** need_value: some jump of the list does not carry a value. */
    method NeedValue(list: int, ghost l: seq<int>) returns (need: bool)
      requires Threaded(code, list, l)
      ensures need <==> exists j :: j in l && !CarriesValue(code, j)
    {
      var node := list;
      ghost var i := 0;
      ThreadedWalk(code, list, l, 0);
      while node != NO_JUMP
        invariant 0 <= i <= |l| && node == NodeAt(l, i)
        invariant forall k :: 0 <= k < i ==> CarriesValue(code, l[k])
        decreases |l| - i
      {
        ThreadedWalk(code, list, l, i);
        var control := if node >= 1 && IsTest(code[node - 1]) then node - 1 else node;
        if !code[control].TestSet? {
          return true;
        }
        node := GetJump(code, node);
        i := i + 1;
      }
      ThreadedWalk(code, list, l, i);
      return false;
    }

    /** patchlistaux: terminates, re-aims exactly the jumps of the list and
        touches no other instruction but their own TESTSETs. The default target
        is used only by jumps that carry no value. */
    method PatchListAux(list: int, ghost l: seq<int>, vtarget: int, reg: nat, dtarget: int) returns (ok: bool)
      requires Threaded(code, list, l) && vtarget >= 0
      requires forall j :: j in l && !CarriesValue(code, j) ==> dtarget >= 0
      modifies this`code
      ensures ok ==> code == Patched(old(code), l, vtarget, reg, dtarget)
      ensures |old(code)| <= MAXARG_SBX && vtarget <= |old(code)| && dtarget <= |old(code)| ==> ok
    {
      hide TestsAs;
      var node := list;
      ghost var k := 0;
      ThreadedWalk(code, list, l, 0);
      ThreadedNoDup(code, list, l);
      PatchedNone(code, l, vtarget, reg, dtarget);
      while node != NO_JUMP
        invariant 0 <= k <= |l| && node == NodeAt(l, k)
        invariant code == Patched(old(code), l[..k], vtarget, reg, dtarget)
        decreases |l| - k
      {
        ThreadedWalk(old(code), list, l, k);
        PatchedStep(old(code), l, k, vtarget, reg, dtarget);
        var next := GetJump(code, node);
        var carries := PatchTestReg(node, reg);
        ok := FixJump(node, if carries then vtarget else dtarget);
        if !ok {
          return;
        }
        node := next;
        k := k + 1;
      }
      ThreadedWalk(old(code), list, l, k);
      assert l[..k] == l;
      ok := true;
    }

    /** dischargejpc: the pending jumps come here, without a value; their tests decide as
        they did, and nothing else is touched. */
    method DischargeJpc() returns (ok: bool)
      requires Valid()
      modifies this`code, this`jpc, this`pending
      ensures ok ==> code == Landed(old(code), old(pending)) && jpc == NO_JUMP && pending == []
      ensures ok ==> forall j :: j in old(pending) ==> LandsAt(old(code), code, j, |old(code)|)
      ensures ok ==> Framed(old(code), code, old(pending))
      ensures |old(code)| <= MAXARG_SBX ==> ok
    {
      ghost var before, landing := code, pending;
      ok := PatchListAux(jpc, pending, |code|, NO_REG, |code|);
      jpc, pending := NO_JUMP, [];
      if ok {
        PendingLand(before, landing, []);
        assert code + [] == code;
      }
    }

    /** luaK_code. */
    method Code(i: Instr) returns (pc: int, ok: bool)
      requires Valid() && !IsTest(i)
      modifies this`code, this`jpc, this`pending
      ensures ok ==> Valid() && pc == |old(code)|
      ensures ok ==> code == Landed(old(code), old(pending)) + [i] && pending == []
      ensures ok ==> forall j :: j in old(pending) ==> LandsAt(old(code), code, j, |old(code)|)
      ensures ok ==> Framed(old(code), code, old(pending))
      ensures |old(code)| <= MAXARG_SBX ==> ok
    {
      LandedPaired(code, pending);
      PendingLand(code, pending, [i]);
      ok := DischargeJpc();
      pc := |code|;
      code := code + [i];
    }

    /** luaK_jump: the jump takes over the pending jumps, to go with it wherever
        it will go. */
    method Jump() returns (j: int, ok: bool)
      requires Valid()
      modifies this`code, this`jpc, this`pending
      ensures ok ==> Valid() && j == |old(code)| && pending == []
      ensures ok ==> code == Hooked(old(code) + [Jmp(0, NO_JUMP)], [j], old(jpc))
      ensures ok ==> Threaded(code, j, [j] + old(pending))
      ensures |old(code)| < MAXARG_SBX ==> ok
    {
      var saved := jpc;
      ghost var held := pending;
      jpc, pending := NO_JUMP, [];
      j, ok := Code(Jmp(0, NO_JUMP));
      if !ok {
        return;
      }
      PatchedNone(old(code), [], |old(code)|, NO_REG, |old(code)|);
      GrowKeepsList(old(code), [Jmp(0, NO_JUMP)], saved, held);
      assert Threaded(code, j, [j]);
      j, ok := Concat(j, saved, [j], held);
    }

    /** luaK_getlabel. */
    method GetLabel() returns (pc: int)
      requires Valid()
      modifies this`lasttarget
      ensures Valid() && pc == |code| && lasttarget == pc
    {
      lasttarget := |code|;
      pc := |code|;
    }

    /** luaK_patchtohere: the list joins the pending jumps. */
    method PatchToHere(list: int, ghost l: seq<int>) returns (ok: bool)
      requires Valid() && Threaded(code, list, l) && forall j :: j in pending ==> j !in l
      modifies this
      ensures ok ==> Valid() && pending == old(pending) + l && lasttarget == |code|
      ensures ok ==> code == Hooked(old(code), old(pending), list)
      ensures |old(code)| <= MAXARG_SBX ==> ok
    {
      var pc := GetLabel();
      jpc, ok := Concat(jpc, list, pending, l);
      pending := pending + l;
    }

    /** code_label: a LOADBOOL that may be a jump target. */
    method CodeLabel(a: nat, truth: bool, skip: bool) returns (pc: int, ok: bool)
      requires Valid()
      modifies this
      ensures ok ==> Valid() && pc == |old(code)|
      ensures ok ==> code == Landed(old(code), old(pending)) + [LoadBool(a, truth, skip)] && pending == []
      ensures |old(code)| <= MAXARG_SBX ==> ok
    {
      var here := GetLabel();
      pc, ok := Code(LoadBool(a, truth, skip));
    }

    /** luaK_nil: one more LOADNIL, or the last instruction stretched over the new
        registers when no jump comes between. */
    method NilTo(from: nat, n: nat) returns (ok: bool)
      requires Valid() && n >= 1
      modifies this`code, this`jpc, this`pending
      ensures ok ==> Valid()
      ensures ok ==>
                || (code == Landed(old(code), old(pending)) + [LoadNil(from, n - 1)] && pending == [])
                || (|old(code)| > lasttarget && pending == old(pending) && |code| == |old(code)|
                    && Replaced(old(code), code, |old(code)| - 1, code[|old(code)| - 1])
                    && ClearsBoth(old(code)[|old(code)| - 1], from, n, code[|old(code)| - 1]))
      ensures |old(code)| <= MAXARG_SBX ==> ok
    {
      var l := from + n - 1;
      if |code| > lasttarget {
        var last := |code| - 1;
        var previous := code[last];
        if previous.LoadNil? {
          var pfrom, pl := previous.a, previous.a + previous.b;
          if (pfrom <= from <= pl + 1) || (from <= pfrom <= l + 1) {
            var low := if pfrom < from then pfrom else from;
            var high := if pl > l then pl else l;
            ReplaceKeepsList(code, last, LoadNil(low, high - low), jpc, pending);
            code := code[last := LoadNil(low, high - low)];
            return true;
          }
        }
      }
      var pc;
      pc, ok := Code(LoadNil(from, n - 1));
    }

    /** discharge2reg, for an expression whose variables have been discharged and
        whose numbers are constants. What was there stays, but for one instruction
        relocated or stretched, or for the pending jumps landing on a new one. */
    method Discharge2Reg(e: ExpDesc, reg: nat, ghost t: seq<int>, ghost f: seq<int>) returns (ok: bool)
      requires Valid() && Described(e, t, f)
      modifies this`code, this`jpc, this`pending, e`k, e`info
      ensures ok ==> Valid() && Lists(e, t, f) && Moderate(old(code), old(pending), code)
      ensures ok ==> forall j :: j in t || j in f ==> CarriesValue(code, j) == CarriesValue(old(code), j)
      ensures ok ==> pending == if |code| == |old(code)| then old(pending) else []
      ensures ok ==> forall w: World :: Discharged(old(e.k), old(e.info), reg, old(code), code, w)
      ensures ok && |code| > |old(code)| ==>
                forall j :: j in old(pending) ==> LandsAt(old(code), code, j, |old(code)|)
      ensures ok && old(e.k).VNil? && |old(code)| <= lasttarget ==> |code| == |old(code)| + 1
      ensures if old(e.k).VVoid? || old(e.k).VJmp?
              then e.k == old(e.k) && e.info == old(e.info) && code == old(code) && pending == old(pending)
              else ok ==> e.k.VNonReloc? && e.info == reg
      ensures |old(code)| <= MAXARG_SBX ==> ok && |code| <= |old(code)| + 1
    {
      ok := DischargeCode(e.k, e.info, reg);
      if ok {
        DischargedKeeps(old(code), old(pending), code, e.t, t);
        DischargedKeeps(old(code), old(pending), code, e.f, f);
        forall j | j in old(pending) && |code| > |old(code)|
          ensures LandsAt(old(code), code, j, |old(code)|)
        {
          ModerateLands(old(code), old(pending), code, j);
        }
        if !e.k.VVoid? && !e.k.VJmp? {
          e.info, e.k := reg, VNonReloc;
        }
      }
    }

    method DischargeCode(k: ExpKind, info: int, reg: nat) returns (ok: bool)
      requires Valid()
      requires k.VRelocable? ==> 0 <= info < |code| && code[info].Other?
      requires k.VK? || k.VNonReloc? || k.VTrue? || k.VFalse? ==> info >= 0
      modifies this`code, this`jpc, this`pending
      ensures ok ==> Valid() && Moderate(old(code), old(pending), code)
      ensures ok ==> pending == if |code| == |old(code)| then old(pending) else []
      ensures ok ==> forall w: World :: Discharged(k, info, reg, old(code), code, w)
      ensures ok && k.VNil? && |old(code)| <= lasttarget ==> |code| == |old(code)| + 1
      ensures k.VVoid? || k.VJmp? ==> code == old(code) && pending == old(pending)
      ensures |old(code)| <= MAXARG_SBX ==> ok && |code| <= |old(code)| + 1
    {
      ok := true;
      match k {
        case VVoid =>
        case VJmp =>
        case VNil =>
          ok := EmitNil(info, reg);
        case VRelocable =>
          Relocate(info, reg);
        case _ =>
          if !(k.VNonReloc? && info == reg) {
            ok := Emit(k, info, reg);
          }
      }
    }

    method Emit(k: ExpKind, info: int, reg: nat) returns (ok: bool)
      requires Valid() && info >= 0
      requires k.VNonReloc? || k.VTrue? || k.VFalse? || k.VK?
      requires k.VNonReloc? ==> info != reg
      modifies this`code, this`jpc, this`pending
      ensures ok ==> Valid() && pending == [] && |code| == |old(code)| + 1
      ensures ok ==> Moderate(old(code), old(pending), code)
      ensures ok ==> forall w: World :: Discharged(k, info, reg, old(code), code, w)
      ensures |old(code)| <= MAXARG_SBX ==> ok
    {
      var pc;
      match k {
        case VNonReloc => pc, ok := Code(Move(reg, info));
        case VTrue => pc, ok := Code(LoadBool(reg, true, false));
        case VFalse => pc, ok := Code(LoadBool(reg, false, false));
        case VK => pc, ok := Code(LoadK(reg, info));
      }
      forall w: World | ok
        ensures Discharged(k, info, reg, old(code), code, w)
      {
        EmissionMeans(k, info, reg, old(code), old(pending), w);
      }
    }

    method EmitNil(info: int, reg: nat) returns (ok: bool)
      requires Valid()
      modifies this`code, this`jpc, this`pending
      ensures ok ==> Valid() && Moderate(old(code), old(pending), code)
      ensures ok ==> pending == if |code| == |old(code)| then old(pending) else []
      ensures ok ==> forall w: World :: Discharged(VNil, info, reg, old(code), code, w)
      ensures ok && |old(code)| <= lasttarget ==> |code| == |old(code)| + 1
      ensures |old(code)| <= MAXARG_SBX ==> ok && |code| <= |old(code)| + 1
    {
      ok := NilTo(reg, 1);
      forall w: World | ok && |code| > |old(code)|
        ensures Discharged(VNil, info, reg, old(code), code, w)
      {
        EmissionMeans(VNil, 0, reg, old(code), old(pending), w);
      }
    }

    method Relocate(info: int, reg: nat)
      requires Valid() && 0 <= info < |code| && code[info].Other?
      modifies this`code
      ensures Valid() && Moderate(old(code), pending, code) && |code| == |old(code)|
      ensures forall w: World :: Discharged(VRelocable, info, reg, old(code), code, w)
    {
      var i := Other(reg, code[info].what);
      ReplaceKeepsList(code, info, i, jpc, pending);
      assert Replaced(code, code[info := i], info, i);
      code := code[info := i];
    }

    /** A comparison's own jump goes to the end of its true list. */
    method JoinTrueList(e: ExpDesc, ghost t: seq<int>, ghost f: seq<int>) returns (ok: bool)
      requires Valid() && Described(e, t, f) && e.k.VJmp?
      modifies this`code, e`t
      ensures ok ==> Valid() && Lists(e, t + [e.info], f) && code == Hooked(old(code), t, e.info)
      ensures ok ==> !CarriesValue(code, e.info)
      ensures |old(code)| <= MAXARG_SBX ==> ok
    {
      HookedKeepsList(code, t, e.info, e.f, f);
      HookedKeepsList(code, t, e.info, jpc, pending);
      e.t, ok := Concat(e.t, e.info, t, [e.info]);
    }

    method CodeLabels(reg: nat) returns (pf: int, pt: int, ok: bool)
      requires Valid()
      modifies this
      ensures ok ==> Valid() && pf == |old(code)| && pt == pf + 1
      ensures ok ==> code == Landed(old(code), old(pending)) + Loads(reg) && pending == []
      ensures |old(code)| < MAXARG_SBX ==> ok
    {
      pt := NO_JUMP;
      pf, ok := CodeLabel(reg, false, true);
      if !ok {
        return;
      }
      PatchedNone(code, [], |code|, NO_REG, |code|);
      pt, ok := CodeLabel(reg, true, false);
    }

    /** The two LOADBOOLs of exp2reg, with the jump over them when control can fall
        out of the expression. */
    method PlaceLoads(comparison: bool, reg: nat, ghost mid: seq<Instr>, ghost t: seq<int>, ghost info: int)
      returns (pf: int, pt: int, ok: bool)
      requires Valid() && AllJumps(mid, t)
      requires code == if comparison then Hooked(mid, t, info) else mid
      modifies this
      ensures ok ==> Valid() && pf == |code| - 2 && pt == |code| - 1 && lasttarget == |code|
      ensures ok && comparison ==>
                AllJumps(mid, old(pending)) && code == CompareBase(mid, t, info, old(pending), reg) && pending == []
      ensures ok && !comparison ==>
                code == FallBase(mid, old(jpc), reg) && pending == [|mid|] + old(pending)
      ensures |old(code)| + 3 <= MAXARG_SBX ==> ok
    {
      var fj := NO_JUMP;
      pf, pt := NO_JUMP, NO_JUMP;
      ghost var skipping: seq<int> := [];
      if !comparison {
        fj, ok := Jump();
        if !ok {
          return;
        }
        skipping := [|mid|] + old(pending);
        GrowKeepsList(code, Loads(reg), fj, skipping);
        PatchedNone(code, [], |code|, NO_REG, |code|);
      } else {
        assert Hooked(mid, t, info) == code;
      }
      pf, pt, ok := CodeLabels(reg);
      if !ok {
        return;
      }
      ok := PatchToHere(fj, skipping);
    }

    /** The end of exp2reg: the false list, then the true list, come to the end of
        the code. */
    method PatchLists(e: ExpDesc, ghost t: seq<int>, ghost f: seq<int>, reg: nat, pf: int, pt: int)
      returns (ok: bool)
      requires Valid() && Lists(e, t, f) && pf <= |code| && pt <= |code|
      requires LoadReady(code, f, reg, false, pf) && LoadReady(code, t, reg, true, pt)
      modifies this`code, this`lasttarget
      ensures ok ==> Valid() && lasttarget == |code|
      ensures ok ==> Landed(code, pending) == Finished(old(code), f, t, pending, reg, pf, pt)
      ensures |old(code)| <= MAXARG_SBX ==> ok
    {
      var final := GetLabel();
      ghost var base := code;
      PatchedKinds(base, f, final, reg, pf);
      PatchedKeepsList(base, f, final, reg, pf, e.t, t);
      PatchedKeepsList(base, f, final, reg, pf, jpc, pending);
      ok := PatchListAux(e.f, f, final, reg, pf);
      if !ok {
        return;
      }
      PatchedKinds(code, t, final, reg, pt);
      PatchedKeepsList(code, t, final, reg, pt, jpc, pending);
      ok := PatchListAux(e.t, t, final, reg, pt);
    }

    /** exp2reg: every path through the true list t, the false list f, the jumps
        pending before it or fall-through reaches the next instruction with the
        value of the expression in reg; x is what exp2reg starts from once the
        expression itself has been discharged. All else stays: of the code before it
        exp2reg changes only those jumps and their TESTSETs, and jump lists that have
        nothing to do with them are threaded as before. */
    method Exp2Reg(e: ExpDesc, reg: nat, ghost t: seq<int>, ghost f: seq<int>)
      returns (ok: bool, ghost x: Expr)
      requires Valid() && Described(e, t, f) && reg < NO_REG
      modifies this, e
      ensures ok ==> Valid() && e.k.VNonReloc? && e.info == reg && e.t == NO_JUMP && e.f == NO_JUMP
      ensures ok ==> x.f == f && x.t == (if old(e.k).VJmp? then t + [old(e.info)] else t)
      ensures ok ==> x.comparison == old(e.k).VJmp?
      ensures ok ==> Moderate(old(code), old(pending), x.mid)
      ensures ok ==> x.held == if |x.mid| == |old(code)| then old(pending) else []
      ensures ok && |x.mid| > |old(code)| ==>
                forall j :: j in old(pending) ==> LandsAt(old(code), x.mid, j, |old(code)|)
      ensures ok && old(e.k).VNil? && |old(code)| <= old(lasttarget) ==> |x.mid| == |old(code)| + 1
      ensures ok ==> forall w: World :: Discharged(old(e.k), old(e.info), reg, old(code), x.mid, w)
      ensures ok ==> Settled(x, Landed(code, pending), reg)
      ensures ok ==> if x.f + x.t == [] then code == x.mid && pending == x.held && lasttarget == old(lasttarget)
                     else lasttarget == |code|
      ensures ok ==> forall head, l :: Threaded(old(code), head, l) && Disjoint(l, x.f + x.t + old(pending)) ==>
                Threaded(Landed(code, pending), head, l)
      ensures |old(code)| + 4 <= MAXARG_SBX ==> ok
    {
      hide Settled, Discharged, Moderate, Landed, LandsAt;
      x := Expr([], [], [], [], false);
      ok := Discharge2Reg(e, reg, t, f);
      if !ok {
        return;
      }
      x := Expr(code, pending, t, f, e.k.VJmp?);
      if e.k.VJmp? {
        x := x.(t := t + [e.info]);
        ok := JoinTrueList(e, t, f);
        if !ok {
          return;
        }
      }
      ok := SettleJumps(e, reg, x, t);
      e.f, e.t, e.info, e.k := NO_JUMP, NO_JUMP, reg, VNonReloc;
      if ok {
        OthersThreaded(x, old(code), old(pending), Landed(code, pending), reg);
      }
    }

    method SettleWithLoads(e: ExpDesc, reg: nat, ghost x: Expr, ghost t: seq<int>) returns (ok: bool)
      requires Valid() && Lists(e, x.t, x.f) && reg < NO_REG
      requires x.comparison == e.k.VJmp? && x.held == pending && AllJumps(x.mid, t)
      requires AllJumps(x.mid, x.f) && AllJumps(x.mid, x.t) && AllJumps(x.mid, x.held)
      requires if x.comparison then x.t == t + [e.info] && code == Hooked(x.mid, t, e.info)
               else code == x.mid
      modifies this
      ensures ok ==> Valid() && Settled(x, Landed(code, pending), reg) && lasttarget == |code|
      ensures |old(code)| + 3 <= MAXARG_SBX ==> ok
    {
      hide Settled;
      ghost var c0, j0, h0 := code, jpc, pending;
      var pf, pt;
      pf, pt, ok := PlaceLoads(e.k.VJmp?, reg, x.mid, t, e.info);
      if !ok {
        return;
      }
      if x.comparison {
        LandKeepsList(c0, h0, Loads(reg), e.t, x.t);
        LandKeepsList(c0, h0, Loads(reg), e.f, x.f);
      } else {
        FallBaseKeepsList(c0, j0, reg, e.t, x.t);
        FallBaseKeepsList(c0, j0, reg, e.f, x.f);
      }
      ok := PatchLists(e, x.t, x.f, reg, pf, pt);
      if x.comparison {
        SettledFromComparison(x, t, e.info, reg);
      } else {
        SettledPastLoads(x, j0, reg);
      }
    }

    /** exp2reg from the point where all jumps of the expression are in its lists. */
    method SettleJumps(e: ExpDesc, reg: nat, ghost x: Expr, ghost t: seq<int>) returns (ok: bool)
      requires Valid() && Lists(e, x.t, x.f) && reg < NO_REG
      requires x.comparison == e.k.VJmp? && x.held == pending && AllJumps(x.mid, t)
      requires AllJumps(x.mid, x.f) && AllJumps(x.mid, x.t) && AllJumps(x.mid, x.held)
      requires if x.comparison then
                 x.t == t + [e.info] && code == Hooked(x.mid, t, e.info) && !CarriesValue(code, e.info)
               else code == x.mid
      modifies this
      ensures ok ==> Valid() && Settled(x, Landed(code, pending), reg)
      ensures ok ==> if x.f + x.t == [] then code == old(code) && pending == x.held && lasttarget == old(lasttarget)
                     else lasttarget == |code|
      ensures |old(code)| + 3 <= MAXARG_SBX ==> ok
    {
      assert x.comparison ==> x.t[|t|] == e.info;
      ok := true;
      if e.t != e.f {
        var need := NeedValue(e.t, x.t);
        if !need {
          need := NeedValue(e.f, x.f);
        }
        if need {
          ok := SettleWithLoads(e, reg, x, t);
        } else {
          FinishedFrame(x.mid, x.f, x.t, pending, reg, NO_JUMP, NO_JUMP);
          ok := PatchLists(e, x.t, x.f, reg, NO_JUMP, NO_JUMP);
          forall w: World | ok
            ensures ExprArrives(x, Landed(code, pending), w, reg)
          {
            ArrivesWithoutLoads(x, reg, NO_JUMP, NO_JUMP, w);
          }
        }
      } else {
        NoListsNoJumps(code, e.t, x.t, x.f, pending, reg);
        FinishedFrame(x.mid, x.f, x.t, pending, reg, NO_JUMP, NO_JUMP);
        forall w: World
          ensures ExprArrives(x, Landed(code, pending), w, reg)
        {
          ArrivesWithoutLoads(x, reg, NO_JUMP, NO_JUMP, w);
        }
      }
    }
  }

  class ExpDesc {
    var k: ExpKind
    var info: int
    var t: int
    var f: int

    constructor (k: ExpKind, info: int, t: int, f: int)
      ensures this.k == k && this.info == info && this.t == t && this.f == f
    {
      this.k, this.info, this.t, this.f := k, info, t, f;
    }
  }
}
