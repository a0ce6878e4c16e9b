/** The reference system of lauxlib.c: references to values, kept in the integer slots
    of a table, with the free slots threaded through the table itself. A nil slot is
    one that is not in the map. */
module LuaRef {

  datatype LuaValue = Nil | Int(i: int) | Other(what: int)

  const LUA_REFNIL: int := -1
  const FREELIST: int := 0

  type Table = t: map<int, LuaValue> | forall k :: k in t ==> t[k] != Nil witness map[]

  function Get(t: Table, k: int): (v: LuaValue) {
    if k in t then t[k] else Nil
  }

  function Set(t: Table, k: int, v: LuaValue): (r: Table)
    ensures forall j :: Get(r, j) == if j == k then v else Get(t, j)
  {
    if v == Nil then t - {k} else t[k := v]
  }

  /** lua_tointeger: zero for what is not a number. */
  function ToInteger(v: LuaValue): (i: int) {
    if v.Int? then v.i else 0
  }

  /** What rawlen may return. */
  predicate IsBorder(t: Table, n: int) {
    n >= 0 && (n == 0 || Get(t, n) != Nil) && Get(t, n + 1) == Nil
  }

  function LinkIn(free: seq<int>, i: int): (v: LuaValue)
    requires 0 <= i < |free|
  {
    if i + 1 < |free| then Int(free[i + 1]) else Nil
  }

  predicate FreeList(t: Table, free: seq<int>) {
    && Get(t, FREELIST) == (if free == [] then Nil else Int(free[0]))
    && (forall i, j :: 0 <= i < j < |free| ==> free[i] != free[j])
    && (forall i :: 0 <= i < |free| ==> free[i] >= 1)
    && (forall i {:trigger LinkIn(free, i)} :: 0 <= i < |free| ==> Get(t, free[i]) == LinkIn(free, i))
  }

  ghost predicate Shared(t: Table, n: nat, free: seq<int>, live: map<int, LuaValue>) {
    && (forall k :: k < 0 || k > n ==> Get(t, k) == Nil)
    && (forall k :: k in live ==> live[k] != Nil && Get(t, k) == live[k])
    && (forall k :: k in live ==> 1 <= k <= n && k !in free)
    && (forall k :: k in free ==> 1 <= k <= n)
    && (forall k :: 1 <= k <= n ==> k in live || k in free)
  }

  /** The table once the first free slot has been filled. */
  function Taken(t: Table, ref: int, v: LuaValue): (r: Table) {
    Set(Set(t, FREELIST, Get(t, ref)), ref, v)
  }

  lemma TakenKeepsList(t: Table, free: seq<int>, v: LuaValue)
    requires FreeList(t, free) && free != []
    ensures FreeList(Taken(t, free[0], v), free[1..])
  {
    assert Get(t, free[0]) == LinkIn(free, 0);
    forall i | 0 <= i < |free[1..]|
      ensures Get(Taken(t, free[0], v), free[1..][i]) == LinkIn(free[1..], i)
    {
      assert Get(t, free[i + 1]) == LinkIn(free, i + 1);
    }
  }

  lemma TakenKeepsShared(t: Table, n: nat, free: seq<int>, live: map<int, LuaValue>, v: LuaValue)
    requires FreeList(t, free) && Shared(t, n, free, live) && free != [] && v != Nil
    ensures Shared(Taken(t, free[0], v), n, free[1..], live[free[0] := v])
  {
    assert free == [free[0]] + free[1..] && free[0] in free && free[0] !in free[1..];
    assert forall k :: k in free <==> k == free[0] || k in free[1..];
  }

  class References {
    var t: Table
    ghost var n: nat                        // slots 1 .. n have been given out
    ghost var free: seq<int>
    ghost var live: map<int, LuaValue>

    /** Slots 1 .. n are split into live and free ones; the free ones are threaded from
        slot 0, and the last of them is nil. */
    ghost predicate Valid()
      reads this
    {
      FreeList(t, free) && Shared(t, n, free, live)
    }

    constructor ()
      ensures Valid() && live == map[] && n == 0
    {
      t, n, free, live := map[], 0, [], map[];
    }

    /** While no slot is free, the table has no holes and one border only. */
    lemma OneBorder(b: int)
      requires Valid() && free == []
      ensures IsBorder(t, b) <==> b == n
    {
      forall k | 1 <= k <= n
        ensures Get(t, k) != Nil
      {
        assert k in live;
      }
    }

    method RawLen() returns (b: int)
      requires Valid() && free == []
      ensures b == n
    {
      OneBorder(n);
      b :| IsBorder(t, b);
      OneBorder(b);
    }

    /** luaL_ref: a reference nobody has. */
    method Ref(v: LuaValue) returns (ref: int)
      requires Valid()
      modifies this
      ensures Valid()
      ensures if v == Nil then ref == -1 && live == old(live) && t == old(t)
              else ref >= 1 && ref !in old(live) && live == old(live)[ref := v]
      ensures n == old(n) + (if v == Nil || old(free) != [] then 0 else 1)
    {
      if v == Nil {
        return LUA_REFNIL;
      }
      ref := ToInteger(Get(t, FREELIST));
      assert free != [] ==> free[0] in free;
      if ref != 0 {
        TakeFree(ref, v);
      } else {
        var len := RawLen();
        ref := len + 1;
        t := Set(t, ref, v);
        n, live := n + 1, live[ref := v];
      }
    }

    method TakeFree(ref: int, v: LuaValue)
      requires Valid() && free != [] && ref == free[0] && v != Nil
      modifies this
      ensures Valid() && n == old(n) && free == old(free)[1..] && live == old(live)[ref := v]
    {
      TakenKeepsList(t, free, v);
      TakenKeepsShared(t, n, free, live, v);
      t := Set(t, FREELIST, Get(t, ref));
      t := Set(t, ref, v);
      free, live := free[1..], live[ref := v];
    }

    /** luaL_unref of a live reference, or of a negative one, which is nobody's. */
    method Unref(ref: int)
      requires Valid() && (ref < 0 || ref in live)
      modifies this
      ensures Valid() && n == old(n)
      ensures live == old(live) - {ref}
      ensures free == if ref < 0 then old(free) else [ref] + old(free)
    {
      if ref >= 0 {
        ghost var was := free;
        t := Set(t, ref, Get(t, FREELIST));
        t := Set(t, FREELIST, Int(ref));
        live, free := live - {ref}, [ref] + free;
        forall i | 0 <= i < |free|
          ensures Get(t, free[i]) == LinkIn(free, i)
        {
          assert i > 0 ==> was[i - 1] in was && Get(old(t), was[i - 1]) == LinkIn(was, i - 1);
        }
      }
    }

    /** lua_rawgeti of an outstanding reference gives the value it was made for, and of the
        reference that nil gets it gives nil. */
    method RawGet(ref: int) returns (v: LuaValue)
      requires Valid() && (ref < 0 || ref in live)
      ensures v == if ref < 0 then Nil else live[ref]
    {
      v := Get(t, ref);
    }
  }
}
