/** The keyed buffers of slbinary_map.h: descriptors that grow down from a separating
    point and data that grows up from it. */
module BMap {
  import opened Bytes
  import opened Args

  type int32 = k: int | -0x8000_0000 <= k < 0x8000_0000

  /** A descriptor: the key and the offset of its data. */
  datatype Desc = Desc(key: int32, offset: int32)

  function DescBytes(d: Desc): (b: bytes)
    ensures |b| == 8
  {
    Le32(d.offset) + Le32(d.key)
  }

  /** The descriptors in memory: the newest lies lowest. */
  ghost function Ups(descs: seq<Desc>): (b: bytes)
    ensures |b| == 8 * |descs|
  {
    if descs == [] then [] else DescBytes(descs[|descs| - 1]) + Ups(descs[..|descs| - 1])
  }

  /** What a reader of the descriptors knows: the last one for a key counts. */
  function Lookup(descs: seq<Desc>): (m: map<int32, int32>) {
    if descs == [] then map[]
    else Lookup(descs[..|descs| - 1])[descs[|descs| - 1].key := descs[|descs| - 1].offset]
  }

  // ------------------------------------------------------------------- reader

  lemma {:induction false} UpsHave(descs: seq<Desc>, i: nat)
    requires i < |descs|
    ensures Sits(Ups(descs), 8 * (|descs| - 1 - i), DescBytes(descs[i]))
  {
    var front, last := descs[..|descs| - 1], descs[|descs| - 1];
    BothSit(DescBytes(last), Ups(front));
    if i < |descs| - 1 {
      UpsHave(front, i);
      SitsInside(Ups(descs), 8, Ups(front), 8 * (|front| - 1 - i), DescBytes(descs[i]));
    }
  }

  /** The i-th descriptor from the separating point down. */
  function DescAt(up: bytes, i: nat): (d: Desc)
    requires 8 * i + 8 <= |up|
  {
    var at := |up| - 8 * i - 8;
    Desc(FromLe32(up[at + 4..at + 8]), FromLe32(up[at..at + 4]))
  }

  /** What any bytes below the separating point say; up to seven of them are too few
      for another descriptor. */
  function Described(up: bytes): (descs: seq<Desc>) {
    seq(|up| / 8, i requires 0 <= i < |up| / 8 => DescAt(up, i))
  }

  lemma DescReads(up: bytes, i: nat, d: Desc)
    requires 8 * i + 8 <= |up| && Sits(up, |up| - 8 * i - 8, DescBytes(d))
    ensures DescAt(up, i) == d
  {
    var at := |up| - 8 * i - 8;
    BothSit(Le32(d.offset), Le32(d.key));
    SitsInside(up, at, DescBytes(d), 0, Le32(d.offset));
    SitsInside(up, at, DescBytes(d), 4, Le32(d.key));
    assert up[at..at + 4] == Le32(d.offset) && up[at + 4..at + 8] == Le32(d.key);
  }

  /** Descriptors are read as they were written. */
  lemma UpsRead(descs: seq<Desc>)
    ensures Described(Ups(descs)) == descs
  {
    hide Ups, DescAt, Sits;
    forall i | 0 <= i < |descs|
      ensures DescAt(Ups(descs), i) == descs[i]
    {
      UpsHave(descs, i);
      DescReads(Ups(descs), i, descs[i]);
    }
  }

  class OBMap {
    const up: bytes       // the bytes below _separate
    const data: bytes     // the bytes from _separate on
    var indexs: map<int32, int32>

    /** parseArray reads the descriptors oldest first, so that the last wins. */
    constructor (up: bytes, data: bytes)
      ensures this.up == up && this.data == data && indexs == Lookup(Described(up))
    {
      this.up, this.data, indexs := up, data, map[];
      new;
      ghost var descs := Described(up);
      var offset := 0;
      ghost var i := 0;
      while offset < |up|
        invariant offset == 8 * i && i <= |descs|
        invariant indexs == Lookup(descs[..i])
      {
        if offset + 4 > |up| {
          break;
        }
        offset := offset + 4;
        var key := FromLe32(up[|up| - offset..|up| - offset + 4]);
        if offset + 4 > |up| {
          break;
        }
        offset := offset + 4;
        var dataOffset := FromLe32(up[|up| - offset..|up| - offset + 4]);
        assert descs[i] == Desc(key, dataOffset) && descs[..i + 1][..i] == descs[..i];
        indexs := indexs[key := dataOffset];
        i := i + 1;
      }
      assert i == |descs| && descs[..i] == descs;
    }

    /** getData: the bytes from the key's data on. */
    function GetData(key: int32): (d: Option<bytes>)
      reads this
    {
      if key in indexs && 0 <= indexs[key] <= |data| then Some(data[indexs[key]..]) else None
    }

    /** getInt8 to getFloat: n bytes, or a zero. */
    function GetScalar(key: int32, n: nat): (v: bytes)
      reads this
    {
      var d := GetData(key);
      if d.Some? && n <= |d.value| then d.value[..n] else seq(n, _ => 0)
    }

    function GetString(key: int32): (s: bytes)
      reads this
    {
      var d := GetData(key);
      if d.Some? then UpToZero(d.value) else []
    }

    function GetBlob(key: int32): (v: Option<bytes>)
      reads this
    {
      var d := GetData(key);
      if d.Some? && |d.value| >= 4 then Slice(d.value, 4, FromLe32(d.value[..4])) else None
    }
  }

  /** The value read for the key is the item. */
  ghost predicate Gives(o: OBMap, key: int32, a: Item)
    reads o
  {
    match a
    case Scalar(_, v) => o.GetScalar(key, |v|) == v
    case Text(s) => o.GetString(key) == s
    case Struct(v) => o.GetBlob(key) == Some(v)
  }

  lemma ScalarAt(b: bytes, at: nat, v: bytes)
    requires Sits(b, at, v)
    ensures |v| <= |b[at..]| && b[at..][..|v|] == v
  {
    SliceOf(b, at, v);
  }

  lemma BlobAt(b: bytes, at: nat, v: bytes)
    requires |v| < 0x8000_0000 && Sits(b, at, Le32(|v|) + v)
    ensures |b[at..]| >= 4 && FromLe32(b[at..][..4]) == |v| && Slice(b[at..], 4, |v|) == Some(v)
  {
    var rest := b[at..];
    BothSit(Le32(|v|), v);
    SitsInside(b, at, Le32(|v|) + v, 0, Le32(|v|));
    SitsInside(b, at, Le32(|v|) + v, 4, v);
    ScalarAt(b, at, Le32(|v|));
    Behind(b, at, 4, v);
    SliceOf(rest, 4, v);
  }

  lemma Behind(b: bytes, at: nat, skip: nat, v: bytes)
    requires Sits(b, at + skip, v)
    ensures Sits(b[at..], skip, v)
  {
  }

  /** Where a key's data lies, its item is read. */
  lemma GivesAt(o: OBMap, key: int32, a: Item)
    requires key in o.indexs && o.indexs[key] >= 0 && Sits(o.data, o.indexs[key], Payload(a))
    ensures Gives(o, key, a)
  {
    match a
    case Scalar(_, v) => ScalarAt(o.data, o.indexs[key], v);
    case Text(s) => StringAt(o.data, o.indexs[key], s);
    case Struct(v) => BlobAt(o.data, o.indexs[key], v);
  }

  function Unsigned(n: int32): (u: nat) {
    if n < 0 then n + 0x1_0000_0000 else n
  }

  /** The bytes that go over the wire: the size of the descriptors, the descriptors from
      the last to the first, each an offset and a key, and the data. */
  lemma WireFormat(descs: seq<Desc>, data: bytes, i: nat)
    requires i < |descs| && 8 * |descs| < 0x8000_0000
    ensures var c, at := Le32(|Ups(descs)|) + Ups(descs) + data, 4 + 8 * (|descs| - 1 - i);
            && |c| == 4 + 8 * |descs| + |data| && Word(c, 0) == 8 * |descs| && c[4 + 8 * |descs|..] == data
            && Word(c, at) == Unsigned(descs[i].offset) && Word(c, at + 4) == Unsigned(descs[i].key)
  {
    hide Ups, Word, Le32;
    var c, at, n := Le32(|Ups(descs)|) + Ups(descs) + data, 4 + 8 * (|descs| - 1 - i), |Ups(descs)|;
    BothSit(Le32(n), Ups(descs));
    Le32Holds(c, 0, n);
    UpsHave(descs, i);
    assert Sits(c, 4, Ups(descs));
    SitsInside(c, 4, Ups(descs), 8 * (|descs| - 1 - i), DescBytes(descs[i]));
    DescLies(c, at, descs[i]);
  }

  lemma DescLies(c: bytes, at: nat, d: Desc)
    requires Sits(c, at, DescBytes(d))
    ensures at + 8 <= |c| && Word(c, at) == Unsigned(d.offset) && Word(c, at + 4) == Unsigned(d.key)
  {
    BothSit(Le32(d.offset), Le32(d.key));
    SitsInside(c, at, DescBytes(d), 0, Le32(d.offset));
    SitsInside(c, at, DescBytes(d), 4, Le32(d.key));
    Le32Holds(c, at, d.offset);
    Le32Holds(c, at + 4, d.key);
  }

  // ------------------------------------------------------------------- writer

  /** The last registered value of each key lies where the descriptors say. */
  ghost predicate Found(descs: seq<Desc>, data: bytes, last: map<int32, Item>) {
    && last.Keys == Lookup(descs).Keys
    && forall k :: k in last ==> Lookup(descs)[k] >= 0 && Sits(data, Lookup(descs)[k], Payload(last[k]))
  }

  /** More data, registered or not, disturbs none of it. */
  lemma FoundStill(descs: seq<Desc>, data: bytes, last: map<int32, Item>, more: bytes)
    requires Found(descs, data, last)
    ensures Found(descs, data + more, last)
  {
    forall k | k in last
      ensures Sits(data + more, Lookup(descs)[k], Payload(last[k]))
    {
      BothSit(data, more);
      SitsInside(data + more, 0, data, Lookup(descs)[k], Payload(last[k]));
    }
  }

  lemma FoundNew(descs: seq<Desc>, data: bytes, last: map<int32, Item>, key: int32, a: Item)
    requires Found(descs, data, last) && |data| < 0x8000_0000
    ensures Found(descs + [Desc(key, |data|)], data + Payload(a), last[key := a])
  {
    FoundStill(descs, data, last, Payload(a));
    BothSit(data, Payload(a));
    var more := descs + [Desc(key, |data|)];
    assert more[..|more| - 1] == descs;
  }

  lemma OneMoreUp(descs: seq<Desc>, d: Desc)
    ensures Ups(descs + [d]) == DescBytes(d) + Ups(descs)
  {
    assert (descs + [d])[..|descs|] == descs;
  }

  class IBMap {
    const upSize: nat
    const downSize: nat
    const buffer: array<byte>     // _data; _separate is at 4 + upSize
    var upOffset: nat
    var downOffset: nat
    var fixed: bool
    ghost var descs: seq<Desc>
    ghost var ups: bytes
    ghost var data: bytes
    ghost var last: map<int32, Item>  // the last registered value of each key

    ghost predicate Laid()
      reads this`upOffset, this`downOffset, this`ups, this`data, buffer
    {
      && buffer.Length == 4 + upSize + downSize && upSize < 0x8000_0000 && downSize < 0x8000_0000
      && upOffset == |ups| <= upSize && downOffset == |data| <= downSize
      && Sits(buffer[..], 4 + upSize - upOffset, ups)
      && Sits(buffer[..], 4 + upSize, data)
    }

    ghost predicate Valid()
      reads this`upOffset, this`downOffset, this`ups, this`data, this`descs, this`last, buffer
    {
      Laid() && ups == Ups(descs) && Found(descs, data, last)
    }

    constructor (upSize: nat, downSize: nat)
      requires upSize < 0x8000_0000 && downSize < 0x8000_0000
      ensures Valid() && !fixed && last == map[] && this.upSize == upSize && this.downSize == downSize
    {
      this.upSize, this.downSize, fixed := upSize, downSize, false;
      upOffset, downOffset, descs, ups, data, last := 0, 0, [], [], [], map[];
      buffer := new byte[4 + upSize + downSize];
    }

    method PutData(payload: bytes)
      requires Laid() && downOffset + |payload| <= downSize
      modifies this`downOffset, this`data, buffer
      ensures Laid() && data == old(data) + payload && downOffset == old(downOffset) + |payload|
    {
      WrittenBehind(buffer[..], 4 + upSize, data, payload, 4 + upSize - upOffset, ups);
      Copy(buffer, 4 + upSize + downOffset, payload);
      downOffset := downOffset + |payload|;
      data := data + payload;
    }

    /** writeDesc: nothing happens when the descriptors have no room left. */
    method WriteDesc(d: Desc) returns (ok: bool)
      requires Laid()
      modifies this`upOffset, this`ups, buffer
      ensures Laid() && ok == (old(upOffset) + 8 <= upSize)
      ensures ups == if ok then DescBytes(d) + old(ups) else old(ups)
    {
      ok := upOffset + 8 <= upSize;
      if ok {
        WrittenBefore(buffer[..], 4 + upSize - upOffset, ups, DescBytes(d), 4 + upSize, data);
        Copy(buffer, 4 + upSize - upOffset - 8, DescBytes(d));
        upOffset := upOffset + 8;
        ups := DescBytes(d) + ups;
      }
    }

    /** writeData, writeString and writeBlob. Without room for the data nothing changes;
        without room for the descriptor the data is written all the same, and the key
        keeps the value it had. */
    method Write(key: int32, payload: bytes, ghost a: Item) returns (ok: bool)
      requires Valid() && !fixed && payload == Payload(a)
      modifies this`upOffset, this`downOffset, this`ups, this`data, this`descs, this`last, buffer
      ensures Valid()
      ensures ok == (old(downOffset) + |payload| <= downSize && old(upOffset) + 8 <= upSize)
      ensures last == if ok then old(last)[key := a] else old(last)
      ensures downOffset == old(downOffset) + (if old(downOffset) + |payload| <= downSize then |payload| else 0)
      ensures old(downOffset) + |payload| > downSize ==> buffer[..] == old(buffer[..])
    {
      if downOffset + |payload| > downSize {
        return false;
      }
      ok := WriteBoth(key, payload, a);
    }

    method WriteBoth(key: int32, payload: bytes, ghost a: Item) returns (ok: bool)
      requires Valid() && payload == Payload(a) && downOffset + |payload| <= downSize
      modifies this`upOffset, this`downOffset, this`ups, this`data, this`descs, this`last, buffer
      ensures Valid() && ok == (old(upOffset) + 8 <= upSize)
      ensures last == if ok then old(last)[key := a] else old(last)
      ensures downOffset == old(downOffset) + |payload|
    {
      SizeOfData();
      hide Laid, Found, Ups, Payload;
      FoundStill(descs, data, last, payload);
      FoundNew(descs, data, last, key, a);
      var d := Desc(key, downOffset);
      PutData(payload);
      ok := Register(d, a);
    }

    method Register(d: Desc, ghost a: Item) returns (ok: bool)
      requires Valid() && Found(descs + [d], data, last[d.key := a])
      modifies this`upOffset, this`ups, this`descs, this`last, buffer
      ensures Valid() && ok == (old(upOffset) + 8 <= upSize)
      ensures last == if ok then old(last)[d.key := a] else old(last)
    {
      hide Laid, Found, Ups, DescBytes;
      OneMoreUp(descs, d);
      ok := WriteDesc(d);
      if ok {
        descs, last := descs + [d], last[d.key := a];
      }
    }

    lemma SizeOfData()
      requires Laid()
      ensures downOffset == |data| < 0x8000_0000
    {
    }

    method PutSize()
      requires Laid()
      modifies buffer
      ensures Laid() && Sits(buffer[..], upSize - upOffset, Le32(upOffset))
    {
      ghost var before := buffer[..];
      Copy(buffer, upSize - upOffset, Le32(upOffset));
      Untouched(before, buffer[..], 4 + upSize - upOffset, ups);
      Untouched(before, buffer[..], 4 + upSize, data);
    }

    /** fix: the size of the descriptors goes right in front of them. */
    method Fix() returns (context: bytes)
      requires Valid() && !fixed
      modifies this`fixed, buffer
      ensures Valid() && fixed && context == Le32(|Ups(descs)|) + Ups(descs) + data
    {
      fixed := true;
      PutSize();
      context := buffer[upSize - upOffset..4 + upSize + downOffset];
      Three(buffer[..], upSize - upOffset, Le32(upOffset), ups, data);
    }
  }

  lemma Three(b: bytes, at: nat, x: bytes, y: bytes, z: bytes)
    requires Sits(b, at, x) && Sits(b, at + |x|, y) && Sits(b, at + |x| + |y|, z)
    ensures b[at..at + |x| + |y| + |z|] == x + y + z
  {
  }

  /** The OBMap made of what fix hands out. */
  method Open(context: bytes, ghost descs: seq<Desc>, ghost data: bytes, ghost last: map<int32, Item>)
    returns (o: OBMap)
    requires |Ups(descs)| < 0x8000_0000 && context == Le32(|Ups(descs)|) + Ups(descs) + data
    requires Found(descs, data, last)
    ensures forall k :: k in last ==> Gives(o, k, last[k])
    ensures forall k: int32 :: k !in last ==> k !in o.indexs
  {
    assert context[..4] == Le32(|Ups(descs)|);
    var upSize := FromLe32(context[..4]);
    assert context[4..4 + upSize] == Ups(descs) && context[4 + upSize..] == data;
    UpsRead(descs);
    o := new OBMap(context[4..4 + upSize], context[4 + upSize..]);
    forall k | k in last
      ensures Gives(o, k, last[k])
    {
      GivesAt(o, k, last[k]);
    }
  }

  /** Written, fixed and opened: every key gives the value last registered for it, and
      no other key gives any. */
  method RoundTrip(m: IBMap) returns (o: OBMap)
    requires m.Valid() && !m.fixed
    modifies m`fixed, m.buffer
    ensures forall k :: k in m.last ==> Gives(o, k, m.last[k])
    ensures forall k: int32 :: k !in m.last ==> k !in o.indexs
  {
    var context := m.Fix();
    o := Open(context, m.descs, m.data, m.last);
  }
}
