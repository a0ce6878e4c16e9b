/** Bytes as the writers lay them down: little-endian integers, and parts that sit at a
    place in a buffer. */
module Bytes {

  type byte = b: int | 0 <= b < 256

  type bytes = seq<byte>

  datatype Option<T> = None | Some(value: T)

  function Le16(n: nat): (r: bytes)
    ensures |r| == 2 && (n < 0x8000 ==> FromLe16(r) == n)
  {
    [n % 256, n / 256 % 256]
  }

  /** Conversion to int16, which wraps around. */
  function ToInt16(n: int): (r: int)
    ensures -0x8000 <= r < 0x8000
    ensures r == n <==> -0x8000 <= n < 0x8000
  {
    var u := n % 0x1_0000;
    if u >= 0x8000 then u - 0x1_0000 else u
  }

  /** int16. */
  function FromLe16(b: bytes): (n: int)
    requires |b| == 2
  {
    var u := b[0] as int + 256 * b[1] as int;
    if u >= 0x8000 then u - 0x1_0000 else u
  }

  /** int16 takes what two bytes can hold of a number. */
  lemma Le16Reads(n: nat)
    ensures FromLe16(Le16(n)) == ToInt16(n)
  {
    var q, m := n / 0x1_0000, n % 0x1_0000;
    assert n == 256 * (256 * q + m / 256) + m % 256;
    assert n % 256 == m % 256 && n / 256 == 256 * q + m / 256;
  }

  function Le32(n: int): (r: bytes)
    requires -0x8000_0000 <= n < 0x8000_0000
    ensures |r| == 4 && FromLe32(r) == n
  {
    var u := if n < 0 then n + 0x1_0000_0000 else n;
    var high, low := u / 0x1_0000, u % 0x1_0000;
    [low % 256, low / 256, high % 256, high / 256]
  }

  /** int32. */
  function FromLe32(b: bytes): (n: int)
    requires |b| == 4
  {
    var low, high := b[0] as int + 256 * b[1] as int, b[2] as int + 256 * b[3] as int;
    var u := low + 0x1_0000 * high;
    if u >= 0x8000_0000 then u - 0x1_0000_0000 else u
  }

  /** The number that four bytes hold, the lowest first. */
  function Word(b: bytes, at: nat): (n: nat)
    requires at + 4 <= |b|
  {
    b[at] as int + 0x100 * b[at + 1] as int + 0x1_0000 * b[at + 2] as int + 0x100_0000 * b[at + 3] as int
  }

  lemma Le32Holds(whole: bytes, at: nat, n: int)
    requires -0x8000_0000 <= n < 0x8000_0000 && Sits(whole, at, Le32(n))
    ensures at + 4 <= |whole| && Word(whole, at) == if n < 0 then n + 0x1_0000_0000 else n
  {
    var b := Le32(n);
    assert whole[at + 0] == b[0] && whole[at + 1] == b[1] && whole[at + 2] == b[2] && whole[at + 3] == b[3];
  }

  function Overwritten(b: bytes, at: nat, from: bytes): (r: bytes)
    requires at + |from| <= |b|
    ensures |r| == |b|
    ensures forall k :: 0 <= k < |b| ==> r[k] == if at <= k < at + |from| then from[k - at] else b[k]
  {
    b[..at] + from + b[at + |from|..]
  }

  /** SafeMemcpy into a buffer that has the room. */
  method Copy(to: array<byte>, at: nat, from: bytes)
    requires at + |from| <= to.Length
    modifies to
    ensures to[..] == Overwritten(old(to[..]), at, from)
  {
    var i := 0;
    while i < |from|
      invariant 0 <= i <= |from|
      invariant forall k :: 0 <= k < to.Length ==> to[k] == if at <= k < at + i then from[k - at] else old(to[k])
    {
      to[at + i] := from[i];
      i := i + 1;
    }
  }

  /** The bytes before the first zero. */
  function UpToZero(b: bytes): (s: bytes)
    ensures 0 !in s
  {
    if b == [] || b[0] == 0 then [] else [b[0]] + UpToZero(b[1..])
  }

  lemma {:induction false} UpToZeroOf(s: bytes, rest: bytes)
    requires 0 !in s
    ensures UpToZero(s + [0] + rest) == s
  {
    var b := s + [0] + rest;
    if s != [] {
      assert s[0] in s;
      assert b[1..] == s[1..] + [0] + rest;
      UpToZeroOf(s[1..], rest);
    }
  }

  function Slice(b: bytes, from: int, n: int): (r: Option<bytes>)
    ensures r.Some? ==> |r.value| == n
  {
    if 0 <= from && 0 <= n && from + n <= |b| then Some(b[from..from + n]) else None
  }

  ghost predicate Sits(whole: bytes, at: nat, part: bytes) {
    && at + |part| <= |whole|
    && forall k {:trigger part[k]} :: 0 <= k < |part| ==> whole[at + k] == part[k]
  }

  lemma SitsInside(whole: bytes, at: nat, part: bytes, skip: nat, inner: bytes)
    requires Sits(whole, at, part) && Sits(part, skip, inner)
    ensures Sits(whole, at + skip, inner)
  {
    forall k | 0 <= k < |inner|
      ensures whole[at + skip + k] == inner[k]
    {
      assert part[skip + k] == inner[k];
    }
  }

  lemma SliceOf(whole: bytes, at: nat, part: bytes)
    requires Sits(whole, at, part)
    ensures Slice(whole, at, |part|) == Some(part)
  {
    assert whole[at..at + |part|] == part;
  }

  lemma BothSit(a: bytes, b: bytes)
    ensures Sits(a + b, 0, a) && Sits(a + b, |a|, b)
  {
  }

  lemma StringAt(whole: bytes, at: nat, s: bytes)
    requires Sits(whole, at, s + [0]) && 0 !in s
    ensures UpToZero(whole[at..]) == s
  {
    var rest := whole[at..];
    forall k | 0 <= k < |s| + 1
      ensures rest[k] == (s + [0])[k]
    {
    }
    assert rest == s + [0] + rest[|s| + 1..];
    UpToZeroOf(s, rest[|s| + 1..]);
  }

  /** A part is written right before or right behind another; a third one is apart. */
  lemma WrittenBefore(b: bytes, at: nat, part: bytes, more: bytes, other: nat, apart: bytes)
    requires |more| <= at && Sits(b, at, part) && Sits(b, other, apart) && at + |part| <= other
    ensures var r := Overwritten(b, at - |more|, more);
            Sits(r, at - |more|, more + part) && Sits(r, other, apart)
  {
  }

  lemma WrittenBehind(b: bytes, at: nat, part: bytes, more: bytes, other: nat, apart: bytes)
    requires Sits(b, at, part) && at + |part| + |more| <= |b| && Sits(b, other, apart) && other + |apart| <= at
    ensures var r := Overwritten(b, at + |part|, more);
            Sits(r, at, part + more) && Sits(r, other, apart)
  {
  }

  lemma Untouched(before: bytes, after: bytes, at: nat, part: bytes)
    requires Sits(before, at, part) && |after| == |before|
    requires forall k :: at <= k < at + |part| ==> after[k] == before[k]
    ensures Sits(after, at, part)
  {
  }
}
