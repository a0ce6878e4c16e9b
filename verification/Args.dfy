/** The argument lists of slargs.h: descriptors that grow down towards the front of
    a buffer, data that grows up behind them. */
module Args {
  import opened Bytes

  datatype Kind = Bool | Int8 | Int16 | Int32 | Int64 | Float

  /** A scalar is kept as its bytes in memory. */
  datatype Arg = Scalar(kind: Kind, value: bytes) | Text(s: bytes) | Struct(value: bytes)

  function Width(k: Kind): (n: nat) {
    match k
    case Bool => 1
    case Int8 => 1
    case Int16 => 2
    case Int32 => 4
    case Int64 => 8
    case Float => 4
  }

  /** What a caller can pass: a scalar of its size, a string without zeros, a struct
      of int32 size. */
  predicate Proper(a: Arg) {
    match a
    case Scalar(k, v) => |v| == Width(k)
    case Text(s) => 0 !in s
    case Struct(v) => |v| < 0x8000_0000
  }

  type Item = a: Arg | Proper(a) witness Scalar(Bool, [0])

  function Code(a: Arg): (c: byte) {
    match a
    case Scalar(k, _) => KindCode(k)
    case Text(_) => 7
    case Struct(_) => 8
  }

  function KindCode(k: Kind): (c: byte) {
    match k
    case Bool => 1
    case Int8 => 2
    case Int16 => 3
    case Int32 => 4
    case Int64 => 5
    case Float => 6
  }

  function Payload(a: Item): (d: bytes)
    ensures |d| >= 1
  {
    match a
    case Scalar(_, v) => v
    case Text(s) => s + [0]
    case Struct(v) => Le32(|v|) + v
  }

  /** All payloads, oldest first. */
  ghost function Data(args: seq<Item>): (d: bytes)
    ensures |d| >= |args|
  {
    if args == [] then [] else Data(args[..|args| - 1]) + Payload(args[|args| - 1])
  }

  function Info(a: Arg, offset: nat): (i: bytes)
    ensures |i| == 3
  {
    [Code(a)] + Le16(offset)
  }

  /** All descriptors, newest first. */
  ghost function Infos(args: seq<Item>): (i: bytes)
    ensures |i| == 3 * |args|
  {
    if args == [] then []
    else
      var front := args[..|args| - 1];
      Info(args[|args| - 1], |Data(front)|) + Infos(front)
  }

  /** What fix hands out: the count, the descriptors, two fields the reader skips and
      the data. */
  ghost function Context(args: seq<Item>, skipped: bytes): (c: bytes)
    requires |args| < 0x8000_0000
  {
    Le32(|args|) + Infos(args) + skipped + Data(args)
  }

  // ------------------------------------------------------------------- reader

  /** OArgs, over the bytes it is given. Where the source asserts a range, a reader
      here gives None. */
  datatype OArgs = OArgs(context: bytes) {

    function Count(): (n: int) {
      var c := Slice(context, 0, 4);
      if c.Some? then FromLe32(c.value) else 0
    }

    /** The assertions of the constructor. */
    predicate Sized() {
      && |context| >= 10
      && (if Count() == 0 then |context| == 10 else Count() > 0 && |context| > 10 + 3 * Count())
    }

    function InfoAt(index: int): (i: Option<bytes>)
      ensures i.Some? ==> |i.value| == 3
    {
      if 0 <= index < Count() then Slice(context, 4 + 3 * (Count() - 1 - index), 3) else None
    }

    function TypeAt(index: int): (t: Option<int>) {
      var i := InfoAt(index);
      if i.Some? then Some(i.value[0]) else None
    }

    /** Where the argument's data starts in the context. */
    function PlaceOf(index: int): (at: Option<int>) {
      var i := InfoAt(index);
      if i.Some? then Some(10 + 3 * Count() + FromLe16(i.value[1..])) else None
    }

    /** n bytes at `skip` behind the start of the argument's data. */
    function DataAt(index: int, skip: int, n: int): (d: Option<bytes>)
      ensures d.Some? ==> |d.value| == n
    {
      var at := PlaceOf(index);
      if at.Some? then Slice(context, at.value + skip, n) else None
    }

    function GetScalar(k: Kind, index: int): (v: Option<bytes>) {
      if TypeAt(index) == Some(KindCode(k) as int) then DataAt(index, 0, Width(k)) else None
    }

    function GetString(index: int): (s: Option<bytes>) {
      var at := PlaceOf(index);
      if TypeAt(index) == Some(7) && at.Some? && 0 <= at.value <= |context|
      then Some(UpToZero(context[at.value..])) else None
    }

    function GetStruct(index: int): (v: Option<bytes>) {
      var n := DataAt(index, 0, 4);
      if TypeAt(index) != Some(8) || n.None? then None else DataAt(index, 4, FromLe32(n.value))
    }
  }

  /** The argument read back is the one written, and no reader of another type gives
      any. */
  ghost predicate ReadsBack(o: OArgs, index: int, a: Arg) {
    && (forall k :: o.GetScalar(k, index) == if a.Scalar? && a.kind == k then Some(a.value) else None)
    && o.GetString(index) == (if a.Text? then Some(a.s) else None)
    && o.GetStruct(index) == (if a.Struct? then Some(a.value) else None)
  }

  lemma {:induction false} DataHas(args: seq<Item>, i: nat)
    requires i < |args|
    ensures Sits(Data(args), |Data(args[..i])|, Payload(args[i]))
  {
    var front := args[..|args| - 1];
    BothSit(Data(front), Payload(args[|args| - 1]));
    if i < |args| - 1 {
      DataHas(front, i);
      assert front[..i] == args[..i];
      SitsInside(Data(args), 0, Data(front), |Data(args[..i])|, Payload(args[i]));
    }
  }

  lemma {:induction false} InfosHave(args: seq<Item>, i: nat)
    requires i < |args|
    ensures Sits(Infos(args), 3 * (|args| - 1 - i), Info(args[i], |Data(args[..i])|))
  {
    hide Sits, Info, Data;
    var front := args[..|args| - 1];
    BothSit(Info(args[|args| - 1], |Data(front)|), Infos(front));
    if i < |args| - 1 {
      InfosHave(front, i);
      assert front[..i] == args[..i];
      SitsInside(Infos(args), 3, Infos(front), 3 * (|front| - 1 - i), Info(args[i], |Data(args[..i])|));
    } else {
      assert front == args[..i];
    }
  }

  /** o is what fix makes of args. */
  ghost predicate Made(o: OArgs, args: seq<Item>) {
    && |Data(args)| <= 0x7FFF
    && |o.context| == 10 + 3 * |args| + |Data(args)|
    && o.Count() == |args|
    && Sits(o.context, 4, Infos(args))
    && Sits(o.context, 10 + 3 * |args|, Data(args))
  }

  lemma JoinSits(a: bytes, b: bytes, c: bytes, d: bytes)
    ensures Sits(a + b + c + d, 0, a) && Sits(a + b + c + d, |a|, b) && Sits(a + b + c + d, |a| + |b| + |c|, d)
  {
  }

  lemma MadeOf(args: seq<Item>, skipped: bytes)
    requires |skipped| == 6 && |Data(args)| <= 0x7FFF
    ensures Made(OArgs(Context(args, skipped)), args)
  {
    JoinSits(Le32(|args|), Infos(args), skipped, Data(args));
    SliceOf(Context(args, skipped), 0, Le32(|args|));
  }

  lemma InfoSlice(o: OArgs, n: nat, infos: bytes, i: nat, info: bytes)
    requires o.Count() == n && i < n && |info| == 3
    requires Sits(o.context, 4, infos) && Sits(infos, 3 * (n - 1 - i), info)
    ensures o.InfoAt(i) == Some(info)
  {
    SitsInside(o.context, 4, infos, 3 * (n - 1 - i), info);
    SliceOf(o.context, 4 + 3 * (n - 1 - i), info);
  }

  lemma InfoReads(o: OArgs, args: seq<Item>, i: nat)
    requires Made(o, args) && i < |args|
    ensures o.InfoAt(i) == Some(Info(args[i], |Data(args[..i])|))
  {
    InfosHave(args, i);
    InfoSlice(o, |args|, Infos(args), i, Info(args[i], |Data(args[..i])|));
  }

  lemma PlaceReads(o: OArgs, i: nat, a: Arg, at: nat)
    requires o.InfoAt(i) == Some(Info(a, at)) && at <= 0x7FFF
    ensures o.TypeAt(i) == Some(Code(a) as int) && o.PlaceOf(i) == Some(10 + 3 * o.Count() + at)
  {
    OffsetReads(a, at);
  }

  /** An offset is read as the int16 it was written as. */
  lemma OffsetReads(a: Arg, at: nat)
    ensures FromLe16(Info(a, at)[1..]) == ToInt16(at)
  {
    assert Info(a, at)[1..] == Le16(at);
    Le16Reads(at);
  }

  /** The payload lies where the descriptor says. */
  lemma PayloadReads(o: OArgs, args: seq<Item>, i: nat) returns (place: nat)
    requires Made(o, args) && i < |args|
    ensures o.TypeAt(i) == Some(Code(args[i]) as int) && o.PlaceOf(i) == Some(place)
    ensures Sits(o.context, place, Payload(args[i]))
  {
    hide Data, Infos, OArgs.InfoAt, OArgs.TypeAt, OArgs.PlaceOf;
    InfoReads(o, args, i);
    DataHas(args, i);
    place := PayloadPlace(o, i, args[i], Data(args), |Data(args[..i])|);
  }

  lemma PayloadPlace(o: OArgs, i: nat, a: Item, data: bytes, at: nat) returns (place: nat)
    requires o.InfoAt(i) == Some(Info(a, at)) && |data| <= 0x7FFF && o.Count() >= 0
    requires Sits(o.context, 10 + 3 * o.Count(), data) && Sits(data, at, Payload(a))
    ensures o.TypeAt(i) == Some(Code(a) as int) && o.PlaceOf(i) == Some(place)
    ensures Sits(o.context, place, Payload(a))
  {
    PlaceReads(o, i, a, at);
    SitsInside(o.context, 10 + 3 * o.Count(), data, at, Payload(a));
    place := 10 + 3 * o.Count() + at;
  }

  lemma PartReads(o: OArgs, i: nat, place: nat, payload: bytes, skip: nat, part: bytes)
    requires o.PlaceOf(i) == Some(place) && Sits(o.context, place, payload) && Sits(payload, skip, part)
    ensures o.DataAt(i, skip, |part|) == Some(part)
  {
    SitsInside(o.context, place, payload, skip, part);
    SliceOf(o.context, place + skip, part);
  }

  /** Reading argument i of what fix hands out gives argument i, and the count is the
      number of arguments, if the data is within the reach of an int16 offset. */
  lemma RoundTrip(args: seq<Item>, skipped: bytes, i: nat)
    requires |skipped| == 6 && |Data(args)| <= 0x7FFF
    ensures var o := OArgs(Context(args, skipped));
            o.Count() == |args| && o.Sized() && (i < |args| ==> ReadsBack(o, i, args[i]))
  {
    MadeOf(args, skipped);
    if i < |args| {
      ItemReads(OArgs(Context(args, skipped)), args, i);
    }
  }

  lemma ItemReads(o: OArgs, args: seq<Item>, i: nat)
    requires Made(o, args) && i < |args|
    ensures ReadsBack(o, i, args[i])
  {
    var place := PayloadReads(o, args, i);
    ItemAt(o, i, args[i], place);
  }

  lemma ItemAt(o: OArgs, i: nat, a: Item, place: nat)
    requires o.TypeAt(i) == Some(Code(a) as int) && o.PlaceOf(i) == Some(place)
    requires Sits(o.context, place, Payload(a))
    ensures ReadsBack(o, i, a)
  {
    match a
    case Scalar(k, v) => PartReads(o, i, place, v, 0, v);
    case Text(s) => StringAt(o.context, place, s);
    case Struct(v) =>
      PartReads(o, i, place, Le32(|v|) + v, 0, Le32(|v|));
      PartReads(o, i, place, Le32(|v|) + v, 4, v);
  }

  // -------------------------------------------------------------- wire format

  /** The bytes that an argument takes. */
  function SizeOf(a: Arg): (n: nat) {
    match a
    case Scalar(Bool, _) => 1
    case Scalar(Int8, _) => 1
    case Scalar(Int16, _) => 2
    case Scalar(Int32, _) => 4
    case Scalar(Int64, _) => 8
    case Scalar(Float, _) => 4
    case Text(s) => |s| + 1
    case Struct(v) => 4 + |v|
  }

  /** The bytes that the first i arguments take. */
  function Before(args: seq<Item>, i: nat): (n: nat)
    requires i <= |args|
  {
    if i == 0 then 0 else Before(args, i - 1) + SizeOf(args[i - 1])
  }

  function TypeByte(a: Arg): (c: byte) {
    if a.Struct? then 8
    else if a.Text? then 7
    else if a.kind.Float? then 6
    else if a.kind.Int64? then 5
    else if a.kind.Int32? then 4
    else if a.kind.Int16? then 3
    else if a.kind.Int8? then 2
    else 1
  }

  /** A scalar lies in its bytes, a string in front of a zero, a struct behind its
      size. */
  predicate LiesAt(c: bytes, at: nat, a: Arg)
    requires at + SizeOf(a) <= |c| && Proper(a)
  {
    match a
    case Scalar(_, v) => c[at..at + |v|] == v
    case Text(s) => c[at..at + |s|] == s && c[at + |s|] == 0
    case Struct(v) => Word(c, at) == |v| && c[at + 4..at + 4 + |v|] == v
  }

  lemma {:induction false} DataSize(args: seq<Item>, i: nat)
    requires i <= |args|
    ensures |Data(args[..i])| == Before(args, i)
  {
    if i > 0 {
      DataSize(args, i - 1);
      assert args[..i][..i - 1] == args[..i - 1];
    }
  }

  lemma TextLies(c: bytes, at: nat, s: bytes)
    requires Sits(c, at, s + [0])
    ensures at + |s| + 1 <= |c| && c[at..at + |s|] == s && c[at + |s|] == 0
  {
    assert (s + [0])[|s|] == 0;
    BothSit(s, [0]);
    SitsInside(c, at, s + [0], 0, s);
    SliceOf(c, at, s);
  }

  lemma StructLies(c: bytes, at: nat, v: bytes)
    requires |v| < 0x8000_0000 && Sits(c, at, Le32(|v|) + v)
    ensures at + 4 + |v| <= |c| && Word(c, at) == |v| && c[at + 4..at + 4 + |v|] == v
  {
    hide Word;
    BothSit(Le32(|v|), v);
    SitsInside(c, at, Le32(|v|) + v, 0, Le32(|v|));
    SitsInside(c, at, Le32(|v|) + v, 4, v);
    Le32Holds(c, at, |v|);
    SliceOf(c, at + 4, v);
  }

  lemma PayloadLies(c: bytes, at: nat, a: Item)
    requires Sits(c, at, Payload(a))
    ensures at + SizeOf(a) <= |c| && LiesAt(c, at, a)
  {
    hide Sits, Word, Le32;
    match a
    case Scalar(_, v) => SliceOf(c, at, v);
    case Text(s) => TextLies(c, at, s);
    case Struct(v) => StructLies(c, at, v);
  }

  lemma InfoLies(c: bytes, at: nat, a: Arg, offset: nat)
    requires Sits(c, at, Info(a, offset)) && offset < 0x1_0000
    ensures at + 3 <= |c| && c[at] == TypeByte(a) && c[at + 1] as int + 0x100 * c[at + 2] as int == offset
  {
    var info := Info(a, offset);
    assert c[at + 0] == info[0] && c[at + 1] == info[1] && c[at + 2] == info[2];
  }

  /** The bytes that go over the wire: the count, the descriptors from the last argument
      to the first, each a type and where the data starts, six more and the data from
      the first argument to the last. */
  lemma WireFormat(args: seq<Item>, skipped: bytes, i: nat)
    requires |skipped| == 6 && |Data(args)| <= 0x7FFF && i < |args|
    ensures var c, info, at := Context(args, skipped), 4 + 3 * (|args| - 1 - i), 10 + 3 * |args| + Before(args, i);
            && |c| == 10 + 3 * |args| + Before(args, |args|) && Word(c, 0) == |args|
            && c[info] == TypeByte(args[i]) && c[info + 1] as int + 0x100 * c[info + 2] as int == Before(args, i)
            && at + SizeOf(args[i]) <= |c| && LiesAt(c, at, args[i])
  {
    hide Data, Infos, Payload, Info, LiesAt, TypeByte, SizeOf, Before, Context, Sits, Word;
    var c, n := Context(args, skipped), |args|;
    ContextParts(args, skipped, i);
    Le32Holds(c, 0, n);
    InfoLies(c, 4 + 3 * (n - 1 - i), args[i], Before(args, i));
    PayloadLies(c, 10 + 3 * n + Before(args, i), args[i]);
  }

  lemma ContextParts(args: seq<Item>, skipped: bytes, i: nat)
    requires |skipped| == 6 && |Data(args)| <= 0x7FFF && i < |args|
    ensures var c, n := Context(args, skipped), |args|;
            && |c| == 10 + 3 * n + Before(args, n) && Before(args, i) <= 0x7FFF && Sits(c, 0, Le32(n))
            && Sits(c, 4 + 3 * (n - 1 - i), Info(args[i], Before(args, i)))
            && Sits(c, 10 + 3 * n + Before(args, i), Payload(args[i]))
  {
    hide Data, Infos, Payload, Info, SizeOf, Before, Sits;
    var c, n := Context(args, skipped), |args|;
    JoinSits(Le32(n), Infos(args), skipped, Data(args));
    DataSize(args, n);
    assert args[..n] == args;
    InfoPlace(args, i);
    SitsInside(c, 4, Infos(args), 3 * (n - 1 - i), Info(args[i], Before(args, i)));
    SitsInside(c, 10 + 3 * n, Data(args), Before(args, i), Payload(args[i]));
  }

  lemma InfoPlace(args: seq<Item>, i: nat)
    requires i < |args|
    ensures Sits(Infos(args), 3 * (|args| - 1 - i), Info(args[i], Before(args, i)))
    ensures Sits(Data(args), Before(args, i), Payload(args[i])) && Before(args, i) <= |Data(args)|
  {
    hide Data, Infos, Payload, Info, SizeOf, Before;
    DataSize(args, i);
    InfosHave(args, i);
    DataHas(args, i);
  }

  // ------------------------------------------------------------------- writer

  lemma OneMore(args: seq<Item>, a: Item)
    ensures Data(args + [a]) == Data(args) + Payload(a)
    ensures Infos(args + [a]) == Info(a, |Data(args)|) + Infos(args)
  {
    assert (args + [a])[..|args|] == args;
  }

  class IArgs {
    const maxCount: nat
    const maxSize: nat
    const header: array<byte>  // reserve, descriptors, six bytes that OArgs skips, data
    var argsCount: nat
    var dataOffset: int        // int16
    var fixed: bool
    ghost var args: seq<Item>  // what has been accepted
    ghost var infos: bytes
    ghost var data: bytes

    /** The buffer holds the descriptors and the payloads. */
    ghost predicate Laid()
      reads this`argsCount, this`infos, this`data, header
    {
      && header.Length == 10 + 3 * maxCount + maxSize
      && argsCount <= maxCount < 0x8000_0000 && |infos| == 3 * argsCount && |data| <= maxSize
      && Sits(header[..], 4 + 3 * (maxCount - argsCount), infos)
      && Sits(header[..], 10 + 3 * maxCount, data)
    }

    /** They are those of what has been accepted, and the int16 that counts the data has
        not wrapped around. */
    ghost predicate Valid()
      reads this`argsCount, this`dataOffset, this`infos, this`data, this`args, header
    {
      && Laid() && argsCount == |args| && infos == Infos(args) && data == Data(args)
      && dataOffset == |data| <= 0x7FFF
    }

    constructor (maxCount: nat, maxSize: nat)
      requires maxCount < 0x8000_0000
      ensures Valid() && !fixed && args == [] && this.maxCount == maxCount && this.maxSize == maxSize
      ensures fresh(header)
    {
      this.maxCount, this.maxSize, fixed := maxCount, maxSize, false;
      argsCount, dataOffset, args, infos, data := 0, 0, [], [], [];
      header := new byte[10 + 3 * maxCount + maxSize];
    }

    method PutInfo(low: nat, info: bytes, high: nat)
      requires |info| <= low && Sits(header[..], low, infos) && Sits(header[..], high, data) && low + |infos| <= high
      modifies this`infos, header
      ensures infos == info + old(infos)
      ensures Sits(header[..], low - |info|, infos) && Sits(header[..], high, data)
    {
      WrittenBefore(header[..], low, infos, info, high, data);
      Copy(header, low - |info|, info);
      infos := info + infos;
    }

    method PutPayload(low: nat, high: nat, payload: bytes)
      requires Sits(header[..], low, infos) && Sits(header[..], high, data) && low + |infos| <= high
      requires high + |data| + |payload| <= header.Length && dataOffset == |data|
      modifies this`data, header
      ensures data == old(data) + payload
      ensures Sits(header[..], low, infos) && Sits(header[..], high, data)
    {
      WrittenBehind(header[..], high, data, payload, low, infos);
      Copy(header, high + dataOffset, payload);
      data := data + payload;
    }

    /** A descriptor and its data; the count of the data is up to the writer. */
    method Place(code: byte, payload: bytes)
      requires Laid() && 0 <= dataOffset == |data| && argsCount < maxCount && dataOffset + |payload| <= maxSize
      modifies this`argsCount, this`infos, this`data, header
      ensures Laid() && infos == [code] + Le16(dataOffset) + old(infos) && data == old(data) + payload
      ensures argsCount == old(argsCount) + 1
    {
      var info := [code] + Le16(dataOffset);
      var low := 4 + 3 * (maxCount - argsCount);
      PutInfo(low, info, 10 + 3 * maxCount);
      PutPayload(low - 3, 10 + 3 * maxCount, payload);
      argsCount := argsCount + 1;
    }

    /** There is room for one more argument with so many bytes of data. */
    predicate Fits(size: nat)
      reads this`fixed, this`argsCount, this`dataOffset
    {
      !fixed && argsCount < maxCount && dataOffset + size <= maxSize
    }

    /** The size of what fix hands out. */
    function ContextSize(): (size: int)
      reads this`argsCount, this`dataOffset
    {
      4 + 3 * argsCount + 6 + dataOffset
    }

    /** After a has been accepted. */
    lemma InOrderIff(was: seq<Item>, a: Item)
      requires args == was + [a] && dataOffset == ToInt16(|Data(was)| + |Payload(a)|)
      requires |Data(was)| + |Payload(a)| <= 0x7FFF ==>
                 && Laid() && argsCount == |args|
                 && infos == Info(a, |Data(was)|) + Infos(was) && data == Data(was) + Payload(a)
      ensures Valid() <==> |Data(was)| + |Payload(a)| <= 0x7FFF
    {
      OneMore(was, a);
    }

    /** write, and what the other writers share with it. A rejected argument changes
        nothing; an accepted one leaves the list in order exactly while the data, with
        it, is no more than 32767 bytes long. */
    method Write(code: byte, payload: bytes, ghost a: Item) returns (ok: bool)
      requires Valid() && code == Code(a) && payload == Payload(a)
      modifies this`argsCount, this`dataOffset, this`args, this`infos, this`data, header
      ensures ok == (!old(fixed) && old(argsCount) < maxCount && old(dataOffset) + |payload| <= maxSize)
      ensures !ok ==> Valid() && args == old(args) && header[..] == old(header[..])
      ensures ok ==> args == old(args) + [a] && dataOffset == ToInt16(old(dataOffset) + |payload|)
      ensures ok ==> argsCount == old(argsCount) + 1
      ensures ok ==> (Valid() <==> old(dataOffset) + |payload| <= 0x7FFF)
    {
      if fixed || argsCount >= maxCount || dataOffset + |payload| > maxSize {
        return false;
      }
      ghost var was := args;
      Place(code, payload);
      args := args + [a];
      dataOffset := ToInt16(dataOffset + |payload|);
      InOrderIff(was, a);
      ok := true;
    }

    method WriteScalar(k: Kind, value: bytes) returns (ok: bool)
      requires Valid() && |value| == Width(k)
      modifies this`argsCount, this`dataOffset, this`args, this`infos, this`data, header
      ensures ok == old(Fits(Width(k)))
      ensures !ok ==> Valid() && args == old(args) && header[..] == old(header[..])
      ensures ok ==> args == old(args) + [Scalar(k, value)] && dataOffset == ToInt16(old(dataOffset) + Width(k))
      ensures ok ==> (Valid() <==> old(dataOffset) + Width(k) <= 0x7FFF)
    {
      ok := Write(KindCode(k), value, Scalar(k, value));
    }

    method WriteString(s: bytes) returns (ok: bool)
      requires Valid() && 0 !in s
      modifies this`argsCount, this`dataOffset, this`args, this`infos, this`data, header
      ensures ok == old(Fits(|s| + 1))
      ensures !ok ==> Valid() && args == old(args) && header[..] == old(header[..])
      ensures ok ==> args == old(args) + [Text(s)] && dataOffset == ToInt16(old(dataOffset) + |s| + 1)
      ensures ok ==> argsCount == old(argsCount) + 1
      ensures ok ==> (Valid() <==> old(dataOffset) + |s| + 1 <= 0x7FFF)
    {
      ok := Write(7, s + [0], Text(s));
    }

    /** Size and bytes of a struct. The size moves dataOffset on its own: when that
        wraps around, the bytes go where it points now. */
    method PutSized(value: bytes)
      requires Laid() && 0 <= dataOffset == |data| <= 0x7FFF && argsCount < maxCount
      requires |value| < 0x8000_0000 && dataOffset + |value| + 4 <= maxSize
      modifies this`argsCount, this`dataOffset, this`infos, this`data, header
      ensures dataOffset == ToInt16(old(dataOffset) + 4 + |value|)
      ensures old(dataOffset) + 4 <= 0x7FFF ==>
                && Laid() && argsCount == old(argsCount) + 1
                && infos == [8] + Le16(old(dataOffset)) + old(infos) && data == old(data) + (Le32(|value|) + value)
    {
      hide ToInt16, Le32;
      Place(8, Le32(|value|));
      Int16Adds(dataOffset + 4, |value|);
      assert old(data) + (Le32(|value|) + value) == old(data) + Le32(|value|) + value;
      NegativeIff(dataOffset);
      dataOffset := ToInt16(dataOffset + 4);
      if dataOffset >= 0 {
        PutPayload(4 + 3 * (maxCount - argsCount), 10 + 3 * maxCount, value);
      } else {
        var at := 10 + 3 * maxCount + dataOffset;
        if 0 <= at && at + |value| <= header.Length {
          Copy(header, at, value);
        }
      }
      dataOffset := ToInt16(dataOffset + |value|);
    }

    method AddStruct(value: bytes) returns (ok: bool)
      requires Valid() && |value| < 0x8000_0000
      modifies this`argsCount, this`dataOffset, this`args, this`infos, this`data, header
      ensures ok == (!old(fixed) && old(argsCount) < maxCount && old(dataOffset) + |value| + 4 <= maxSize)
      ensures !ok ==> Valid() && args == old(args) && header[..] == old(header[..])
      ensures ok ==> args == old(args) + [Struct(value)] && dataOffset == ToInt16(old(dataOffset) + 4 + |value|)
      ensures ok ==> (Valid() <==> old(dataOffset) + 4 + |value| <= 0x7FFF)
    {
      hide ToInt16, Le32, Le16, Laid, Data, Infos, Info, Payload;
      if fixed || argsCount >= maxCount || dataOffset + |value| + 4 > maxSize {
        return false;
      }
      ghost var was, a: Item := args, Struct(value);
      StructData(value, dataOffset);
      PutSized(value);
      args := args + [a];
      InOrderIff(was, a);
      ok := true;
    }

    method PutCount()
      requires Laid()
      modifies header
      ensures Laid() && Sits(header[..], 3 * (maxCount - argsCount), Le32(argsCount))
    {
      ghost var before := header[..];
      Copy(header, 3 * (maxCount - argsCount), Le32(argsCount));
      Untouched(before, header[..], 4 + 3 * (maxCount - argsCount), infos);
      Untouched(before, header[..], 10 + 3 * maxCount, data);
    }

    method Extract() returns (context: bytes, ghost skipped: bytes)
      requires Laid() && dataOffset == |data| && Sits(header[..], 3 * (maxCount - argsCount), Le32(argsCount))
      ensures |skipped| == 6 && context == Le32(argsCount) + infos + skipped + data
    {
      var at := 3 * (maxCount - argsCount);
      skipped := header[4 + 3 * maxCount..10 + 3 * maxCount];
      context := header[at..at + ContextSize()];
      Cut(header[..], at, Le32(argsCount), infos, skipped, data);
    }

    /** fix: the count goes right in front of the descriptors, over unused ones or
        the reserve. Nothing is accepted afterwards, and what is handed out can be
        read by OArgs. */
    method Fix() returns (context: bytes, ghost skipped: bytes)
      requires Valid() && !fixed
      modifies this`fixed, header
      ensures Valid() && fixed && |skipped| == 6 && context == Context(args, skipped)
      ensures ReadsAll(OArgs(context), args)
    {
      fixed := true;
      PutCount();
      context, skipped := Extract();
      AllRead(args, skipped);
    }
  }

  lemma StructData(value: bytes, at: nat)
    requires |value| < 0x8000_0000
    ensures Payload(Struct(value)) == Le32(|value|) + value && |Payload(Struct(value))| == 4 + |value|
    ensures Info(Struct(value), at) == [8] + Le16(at)
  {
  }

  lemma NegativeIff(a: int)
    requires 0 <= a <= 0x7FFF
    ensures ToInt16(a + 4) >= 0 <==> a + 4 <= 0x7FFF
  {
  }

  lemma Int16Adds(a: int, b: int)
    ensures ToInt16(ToInt16(a) + b) == ToInt16(a + b)
  {
    var q := WordsOff(a);
    SameInt16(ToInt16(a) + b, q);
  }

  lemma WordsOff(a: int) returns (q: int)
    ensures a == ToInt16(a) + 0x1_0000 * q
  {
    q := if a % 0x1_0000 >= 0x8000 then a / 0x1_0000 + 1 else a / 0x1_0000;
  }

  lemma SameInt16(n: int, q: int)
    ensures ToInt16(n + 0x1_0000 * q) == ToInt16(n)
  {
    assert (n + 0x1_0000 * q) % 0x1_0000 == n % 0x1_0000;
  }

  /** With more room than an int16 can count, a list can get out of order: its last
      argument has been accepted, and its count of the data is negative. */
  method WrapsAround() returns (list: IArgs, ok: bool)
    ensures ok && list.dataOffset == -0x8000 && |list.args| == 1 && !list.Valid()
    ensures !list.fixed && list.ContextSize() < 0
  {
    list := new IArgs(1, 40000);
    var s := seq(32767, _ => 65);
    ok := list.WriteString(s);
  }

  ghost predicate ReadsAll(o: OArgs, args: seq<Item>) {
    && o.Count() == |args| && o.Sized()
    && forall i :: 0 <= i < |args| ==> ReadsBack(o, i, args[i])
  }

  lemma AllRead(args: seq<Item>, skipped: bytes)
    requires |skipped| == 6 && |Data(args)| <= 0x7FFF
    ensures ReadsAll(OArgs(Context(args, skipped)), args)
  {
    RoundTrip(args, skipped, 0);
    forall i | 0 <= i < |args|
      ensures ReadsBack(OArgs(Context(args, skipped)), i, args[i])
    {
      RoundTrip(args, skipped, i);
    }
  }

  lemma Cut(b: bytes, at: nat, count: bytes, infos: bytes, skipped: bytes, data: bytes)
    requires Sits(b, at, count) && Sits(b, at + |count|, infos)
    requires Sits(b, at + |count| + |infos|, skipped) && Sits(b, at + |count| + |infos| + |skipped|, data)
    ensures b[at..at + |count| + |infos| + |skipped| + |data|] == count + infos + skipped + data
  {
  }
}
