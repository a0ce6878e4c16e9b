/** Sequences seen as lists: neighbours, members, and taking one out. */
module Sequences {

  ghost predicate NoDup<T>(l: seq<T>) {
    forall i, j :: 0 <= i < j < |l| ==> l[i] != l[j]
  }

  /** The member behind the i-th, or what the last one is followed by. */
  function After<T>(l: seq<T>, i: int, end: T): (r: T)
    requires 0 <= i < |l|
  {
    if i + 1 < |l| then l[i + 1] else end
  }

  function Before<T>(l: seq<T>, i: int, start: T): (r: T)
    requires 0 <= i < |l|
  {
    if i == 0 then start else l[i - 1]
  }

  /** l without its k-th member. */
  function Cut<T>(l: seq<T>, k: nat): (r: seq<T>)
    requires k <= |l|
    ensures |r| == if k < |l| then |l| - 1 else |l|
    ensures forall i {:trigger r[i]} :: 0 <= i < |r| ==> r[i] == l[if i < k then i else i + 1]
  {
    if k < |l| then l[..k] + l[k + 1..] else l
  }

  lemma CutMembers<T>(l: seq<T>, k: nat, c: T)
    requires NoDup(l) && k <= |l| && (if k < |l| then l[k] == c else c !in l)
    ensures NoDup(Cut(l, k))
    ensures forall d :: d in Cut(l, k) <==> d in l && d != c
  {
    var r := Cut(l, k);
    forall d | d in l && d != c
      ensures d in r
    {
      var i :| 0 <= i < |l| && l[i] == d;
      assert r[if i < k then i else i - 1] == d;
    }
  }

  lemma JoinAssociates<T>(a: seq<T>, b: seq<T>, c: seq<T>)
    ensures a + b + c == a + (b + c)
  {
  }

  lemma JoinNoDup<T>(a: seq<T>, b: seq<T>)
    requires NoDup(a) && NoDup(b) && forall t :: t in a ==> t !in b
    ensures NoDup(a + b)
  {
    forall i, j | 0 <= i < |a| && 0 <= j < |b|
      ensures a[i] != b[j]
    {
      assert a[i] in a && b[j] in b;
    }
  }

  /** l without t, wherever it is. */
  function Without<T(==)>(list: seq<T>, t: T): (r: seq<T>)
    ensures forall s :: s in r ==> s in list && s != t
    ensures forall s :: s in list && s != t ==> s in r
  {
    if list == [] then []
    else (if list[0] == t then [] else [list[0]]) + Without(list[1..], t)
  }

  lemma {:induction false} WithoutNoDup<T>(list: seq<T>, t: T)
    requires NoDup(list)
    ensures NoDup(Without(list, t))
  {
    if list != [] {
      WithoutNoDup(list[1..], t);
      assert list[0] !in list[1..];
    }
  }

  lemma {:induction false} WithoutJoin<T>(a: seq<T>, b: seq<T>, t: T)
    ensures Without(a + b, t) == Without(a, t) + Without(b, t)
  {
    if a == [] {
      assert a + b == b;
    } else {
      assert (a + b)[1..] == a[1..] + b;
      WithoutJoin(a[1..], b, t);
    }
  }

  lemma {:induction false} WithoutBoth<T>(list: seq<T>, t: T, u: T)
    ensures Without(Without(list, u), t) == Without(Without(list, t), u)
  {
    if list != [] {
      var x, rest := list[0], list[1..];
      WithoutBoth(rest, t, u);
      WithoutJoin(if x == u then [] else [x], Without(rest, u), t);
      WithoutJoin(if x == t then [] else [x], Without(rest, t), u);
    }
  }

  lemma WithoutAbsent<T>(list: seq<T>, t: T)
    requires t !in list
    ensures Without(list, t) == list
  {
  }

  lemma WithoutHead<T>(list: seq<T>)
    requires NoDup(list) && list != []
    ensures Without(list, list[0]) == list[1..]
  {
    assert list[0] !in list[1..];
    WithoutAbsent(list[1..], list[0]);
  }
}
