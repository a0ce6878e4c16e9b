/** The keyed tables of the data centre: rows in a vector and an index from the key
    column to the row's position. Only the key column of a row is kept here. */
module Tables {
  import opened Sequences

  type Size = n: nat | n >= 1 witness 1

  datatype KeyType = NoKey | IntKeys | StringKeys(size: Size)  // size of the key column

  datatype Key = Num(n: int) | Text(s: string)

  const MAX_STRING_KEY_LEN: nat := 64

  /** What the index goes by: no more than the first 64 characters of a string. */
  function Entry(k: Key): (e: Key)
    ensures e == Text("") ==> k == Text("")
  {
    match k
    case Num(_) => k
    case Text(s) => Text(if |s| > MAX_STRING_KEY_LEN then s[..MAX_STRING_KEY_LEN] else s)
  }

  /** The index cannot tell these keys apart: the same key, or two strings that only
      differ behind their 64th character. */
  predicate Alike(a: Key, b: Key) {
    a == b || (a.Text? && b.Text? && |a.s| >= 64 && |b.s| >= 64 && a.s[..64] == b.s[..64])
  }

  lemma AlikeIff(a: Key, b: Key)
    ensures Entry(a) == Entry(b) <==> Alike(a, b)
  {
    if a.Text? && b.Text? && |a.s| < 64 && |b.s| < 64 {
      assert Entry(a) == a && Entry(b) == b;
    }
  }

  predicate TypeOf(k: Key, t: KeyType) {
    (t.IntKeys? && k.Num?) || (t.StringKeys? && k.Text?)
  }

  /** The column has room for the string and its end. */
  predicate Fits(k: Key, t: KeyType) {
    t.StringKeys? && k.Text? ==> |k.s| + 1 <= t.size
  }

  /** The key column of a new row: zeros. */
  function Blank(t: KeyType): (k: Key) {
    if t.StringKeys? then Text("") else Num(0)
  }

  // ------------------------------------------------------ keys and their index

  type Index = map<Key, int>

  predicate KeyAt(t: KeyType, keys: seq<Key>, index: Index, i: int)
    requires 0 <= i < |keys|
  {
    if t.NoKey? then !TypeOf(keys[i], t)
    else TypeOf(keys[i], t) && Entry(keys[i]) in index && index[Entry(keys[i])] == i
  }

  predicate EntryAt(t: KeyType, keys: seq<Key>, index: Index, e: Key)
    requires e in index
  {
    0 <= index[e] < |keys| && Entry(keys[index[e]]) == e
  }

  /** The index maps exactly the keys to their positions. */
  ghost predicate Agree(t: KeyType, keys: seq<Key>, index: Index) {
    && (t.NoKey? ==> index == map[])
    && (forall i :: 0 <= i < |keys| ==> KeyAt(t, keys, index, i))
    && (forall e {:trigger EntryAt(t, keys, index, e)} :: e in index ==> EntryAt(t, keys, index, e))
  }

  /** The key is found exactly when some row has it. */
  lemma FoundIffPresent(t: KeyType, keys: seq<Key>, index: Index, e: Key)
    requires Agree(t, keys, index)
    ensures e in index ==> EntryAt(t, keys, index, e)
    ensures !t.NoKey? ==> (e in index <==> exists i :: 0 <= i < |keys| && Entry(keys[i]) == e)
  {
    if e in index {
      assert EntryAt(t, keys, index, e);
    } else if exists i :: 0 <= i < |keys| && Entry(keys[i]) == e {
      var i :| 0 <= i < |keys| && Entry(keys[i]) == e;
      assert KeyAt(t, keys, index, i);
    }
  }

  /** Rows by key, as the users of the table see them. */
  function RowsBy<T>(rows: seq<T>, index: Index): (m: map<Key, T>) {
    map e | e in index && 0 <= index[e] < |rows| :: rows[index[e]]
  }

  /** A key leads to the only row whose key the index cannot tell from it. */
  lemma LeadsTo(t: KeyType, keys: seq<Key>, index: Index, k: Key)
    requires Agree(t, keys, index) && TypeOf(k, t)
    ensures Entry(k) in index <==> exists i :: 0 <= i < |keys| && Alike(keys[i], k)
    ensures forall i :: 0 <= i < |keys| && Alike(keys[i], k) ==> Entry(k) in index && index[Entry(k)] == i
  {
    FoundIffPresent(t, keys, index, Entry(k));
    forall i | 0 <= i < |keys|
      ensures Alike(keys[i], k) <==> Entry(k) in index && index[Entry(k)] == i
    {
      AlikeIff(keys[i], k);
      assert KeyAt(t, keys, index, i);
    }
  }

  // an addition; old entries are never overwritten

  function Inserted(index: Index, k: Key, i: int): (r: Index) {
    if Entry(k) in index then index else index[Entry(k) := i]
  }

  function Stored(k: Key, t: KeyType): (r: Key) {
    if Fits(k, t) then k else Blank(t)
  }

  /** Index and keys still agree exactly when the key is new and fits. */
  lemma AddAgrees(t: KeyType, keys: seq<Key>, index: Index, k: Key)
    requires Agree(t, keys, index) && TypeOf(k, t)
    ensures Agree(t, keys + [Stored(k, t)], Inserted(index, k, |keys|)) <==> Entry(k) !in index && Fits(k, t)
  {
    var n, keys', index' := |keys|, keys + [Stored(k, t)], Inserted(index, k, |keys|);
    forall e | e in index
      ensures 0 <= index[e] < n && EntryAt(t, keys', index', e)
    {
      assert EntryAt(t, keys, index, e);
    }
    if Entry(k) !in index && Fits(k, t) {
      forall i | 0 <= i < |keys'|
        ensures KeyAt(t, keys', index', i)
      {
        assert i < n ==> KeyAt(t, keys, index, i);
      }
      assert EntryAt(t, keys', index', Entry(k));
    } else {
      assert !KeyAt(t, keys', index', n);
    }
  }

  lemma AddRowBy<T>(t: KeyType, keys: seq<Key>, index: Index, k: Key, rows: seq<T>, row: T)
    requires Agree(t, keys, index) && Entry(k) !in index && |rows| == |keys|
    ensures RowsBy(rows + [row], Inserted(index, k, |rows|)) == RowsBy(rows, index)[Entry(k) := row]
  {
    forall e | e in index
      ensures 0 <= index[e] < |rows|
    {
      assert EntryAt(t, keys, index, e);
    }
  }

  // a swap

  function Swapped<T>(l: seq<T>, i: nat, j: nat): (r: seq<T>)
    requires i < |l| && j < |l|
  {
    l[i := l[j]][j := l[i]]
  }

  function Exchanged(t: KeyType, keys: seq<Key>, index: Index, i: nat, j: nat): (r: Index)
    requires i < |keys| && j < |keys|
  {
    if t.NoKey? then index else index[Entry(keys[i]) := j][Entry(keys[j]) := i]
  }

  lemma ExchangedAt(t: KeyType, keys: seq<Key>, index: Index, i: nat, j: nat)
    requires Agree(t, keys, index) && i < |keys| && j < |keys|
    ensures var r := Exchanged(t, keys, index, i, j);
            forall e :: (e in r <==> e in index)
              && (e in r ==> r[e] == if index[e] == i then j else if index[e] == j then i else index[e])
  {
    assert KeyAt(t, keys, index, i) && KeyAt(t, keys, index, j);
    forall e | e in index
      ensures EntryAt(t, keys, index, e)
    {
    }
  }

  lemma SwapAgrees<T>(t: KeyType, keys: seq<Key>, index: Index, i: nat, j: nat, rows: seq<T>)
    requires Agree(t, keys, index) && i < |keys| && j < |keys| && |rows| == |keys|
    ensures Agree(t, Swapped(keys, i, j), Exchanged(t, keys, index, i, j))
    ensures RowsBy(Swapped(rows, i, j), Exchanged(t, keys, index, i, j)) == RowsBy(rows, index)
  {
    var keys', index' := Swapped(keys, i, j), Exchanged(t, keys, index, i, j);
    ExchangedAt(t, keys, index, i, j);
    forall e | e in index
      ensures EntryAt(t, keys', index', e) && EntryAt(t, keys, index, e)
    {
      assert EntryAt(t, keys, index, e);
    }
    forall k | 0 <= k < |keys|
      ensures KeyAt(t, keys', index', k)
    {
      assert KeyAt(t, keys, index, if k == i then j else if k == j then i else k);
    }
  }

  // a deletion

  /** The index when the keys from position i on have been entered again. */
  function Reindexed(index: Index, keys: seq<Key>, i: nat): (r: Index)
    decreases |keys| - i
  {
    if i >= |keys| then index else Reindexed(index[Entry(keys[i]) := i], keys, i + 1)
  }

  ghost predicate Distinct(keys: seq<Key>) {
    forall i, j :: 0 <= i < j < |keys| ==> Entry(keys[i]) != Entry(keys[j])
  }

  lemma {:induction false} ReindexedAt(index: Index, keys: seq<Key>, i: nat)
    requires Distinct(keys)
    ensures var r := Reindexed(index, keys, i);
            && (forall j :: i <= j < |keys| ==> Entry(keys[j]) in r && r[Entry(keys[j])] == j)
            && (forall e :: e in index ==> e in r)
            && (forall e :: e in r ==>
                  (e in index && r[e] == index[e]) || (i <= r[e] < |keys| && Entry(keys[r[e]]) == e))
    decreases |keys| - i
  {
    if i < |keys| {
      ReindexedAt(index[Entry(keys[i]) := i], keys, i + 1);
    }
  }

  lemma AgreeDistinct(t: KeyType, keys: seq<Key>, index: Index)
    requires Agree(t, keys, index) && !t.NoKey?
    ensures Distinct(keys)
  {
    forall i, j | 0 <= i < j < |keys|
      ensures Entry(keys[i]) != Entry(keys[j])
    {
      assert KeyAt(t, keys, index, i) && KeyAt(t, keys, index, j);
    }
  }

  function Deleted(t: KeyType, keys: seq<Key>, index: Index, i: nat): (r: Index)
    requires i < |keys|
  {
    if t.NoKey? then index else Reindexed(index - {Entry(keys[i])}, Cut(keys, i), i)
  }

  function MovedUp(p: int, i: nat): (r: int) {
    if p < i then p else p - 1
  }

  /** Every entry but the deleted one stays, and those behind it move up. */
  lemma DeletedAt(t: KeyType, keys: seq<Key>, index: Index, i: nat)
    requires Agree(t, keys, index) && i < |keys| && !t.NoKey?
    ensures var r := Deleted(t, keys, index, i);
            forall e :: (e in r <==> e in index && e != Entry(keys[i])) && (e in r ==> r[e] == MovedUp(index[e], i))
  {
    var keys', cut, r := Cut(keys, i), index - {Entry(keys[i])}, Deleted(t, keys, index, i);
    AgreeDistinct(t, keys, index);
    ReindexedAt(cut, keys', i);
    forall e | e in index && e != Entry(keys[i])
      ensures e in r && r[e] == MovedUp(index[e], i)
    {
      assert EntryAt(t, keys, index, e) && e in cut;
      assert index[e] > i ==> keys'[index[e] - 1] == keys[index[e]];
    }
    forall j | 0 <= j < |keys|
      ensures Entry(keys[j]) in index && index[Entry(keys[j])] == j
    {
      assert KeyAt(t, keys, index, j);
    }
  }

  lemma DeleteAgrees(t: KeyType, keys: seq<Key>, index: Index, i: nat)
    requires Agree(t, keys, index) && i < |keys|
    ensures Agree(t, Cut(keys, i), Deleted(t, keys, index, i))
  {
    var keys', index' := Cut(keys, i), Deleted(t, keys, index, i);
    if !t.NoKey? {
      DeletedAt(t, keys, index, i);
    }
    forall e | e in index'
      ensures EntryAt(t, keys', index', e)
    {
      assert EntryAt(t, keys, index, e) && KeyAt(t, keys, index, i);
    }
    forall j | 0 <= j < |keys'|
      ensures KeyAt(t, keys', index', j)
    {
      assert KeyAt(t, keys, index, i) && KeyAt(t, keys, index, if j < i then j else j + 1);
    }
  }

  /** The users of the table lose the deleted row and no other. */
  lemma DeleteRow<T>(t: KeyType, keys: seq<Key>, index: Index, i: nat, rows: seq<T>)
    requires Agree(t, keys, index) && i < |keys| && |rows| == |keys|
    ensures RowsBy(Cut(rows, i), Deleted(t, keys, index, i)) == RowsBy(rows, index) - {Entry(keys[i])}
  {
    hide Deleted, Agree, Cut;
    var index' := Deleted(t, keys, index, i);
    forall e
      ensures e in index' <==> e in index && e != Entry(keys[i])
      ensures e in index' ==>
                0 <= index[e] < |rows| && 0 <= index'[e] < |rows| - 1 && Cut(rows, i)[index'[e]] == rows[index[e]]
    {
      RowStays(t, keys, index, i, rows, e);
    }
  }

  lemma RowStays<T>(t: KeyType, keys: seq<Key>, index: Index, i: nat, rows: seq<T>, e: Key)
    requires Agree(t, keys, index) && i < |keys| && |rows| == |keys|
    ensures var index' := Deleted(t, keys, index, i);
            && (e in index' <==> e in index && e != Entry(keys[i]))
            && (e in index' ==>
                  0 <= index[e] < |rows| && 0 <= index'[e] < |rows| - 1 && Cut(rows, i)[index'[e]] == rows[index[e]])
  {
    if t.NoKey? {
      assert Deleted(t, keys, index, i) == index == map[];
    } else {
      KeyedRowStays(t, keys, index, i, rows, e);
    }
  }

  lemma KeyedRowStays<T>(t: KeyType, keys: seq<Key>, index: Index, i: nat, rows: seq<T>, e: Key)
    requires Agree(t, keys, index) && i < |keys| && |rows| == |keys| && !t.NoKey?
    ensures var index' := Deleted(t, keys, index, i);
            && (e in index' <==> e in index && e != Entry(keys[i]))
            && (e in index' ==>
                  0 <= index[e] < |rows| && 0 <= index'[e] < |rows| - 1 && Cut(rows, i)[index'[e]] == rows[index[e]])
  {
    hide Deleted, Entry;
    DeletedAt(t, keys, index, i);
    assert KeyAt(t, keys, index, i);
    assert e in index ==> EntryAt(t, keys, index, e) && (index[e] == i <==> e == Entry(keys[i]));
  }

  // a change of key

  function Rekeyed(index: Index, k: Key, was: Key): (r: Index)
    requires Entry(was) in index
  {
    index[Entry(k) := index[Entry(was)]] - {Entry(was)}
  }

  /** Index and keys still agree exactly when the new key is new to the index: even
      the key the row already has is not. */
  lemma RekeyAgrees(t: KeyType, keys: seq<Key>, index: Index, i: nat, k: Key)
    requires Agree(t, keys, index) && i < |keys| && TypeOf(k, t)
    ensures Entry(keys[i]) in index
    ensures Agree(t, keys[i := k], Rekeyed(index, k, keys[i])) <==> Entry(k) !in index
  {
    assert KeyAt(t, keys, index, i);
    var keys', index' := keys[i := k], Rekeyed(index, k, keys[i]);
    forall j | 0 <= j < |keys|
      ensures KeyAt(t, keys, index, j)
    {
    }
    forall e | e in index
      ensures EntryAt(t, keys, index, e)
    {
    }
    if Entry(k) !in index {
      forall j | 0 <= j < |keys'|
        ensures KeyAt(t, keys', index', j)
      {
        assert KeyAt(t, keys, index, j);
      }
      forall e | e in index'
        ensures EntryAt(t, keys', index', e)
      {
        assert e != Entry(k) ==> EntryAt(t, keys, index, e);
      }
    } else if Entry(k) == Entry(keys[i]) {
      assert !KeyAt(t, keys', index', i);
    } else {
      assert !KeyAt(t, keys', index', index[Entry(k)]);
    }
  }

  lemma RekeyRowBy<T>(t: KeyType, keys: seq<Key>, index: Index, i: nat, k: Key, rows: seq<T>)
    requires Agree(t, keys, index) && i < |keys| == |rows| && !t.NoKey? && Entry(k) !in index
    ensures Entry(keys[i]) in index
    ensures RowsBy(rows, Rekeyed(index, k, keys[i]))
         == (RowsBy(rows, index) - {Entry(keys[i])})[Entry(k) := rows[i]]
  {
    assert KeyAt(t, keys, index, i);
  }

  /** Giving a row the string it already has takes it out of the index. */
  lemma SameKeyIsForgotten(index: Index, k: Key, was: Key)
    requires Entry(was) in index && Entry(k) == Entry(was)
    ensures Rekeyed(index, k, was) == index - {Entry(was)}
  {
  }

  // ---------------------------------------------------------------- the table

  class TableRow {
    var rowIndex: int
    var key: Key  // the key column

    constructor (key: Key, rowIndex: int)
      ensures this.key == key && this.rowIndex == rowIndex
    {
      this.key, this.rowIndex := key, rowIndex;
    }
  }

  class TableControl {
    const keyType: KeyType
    var rows: seq<TableRow>
    var index: Index
    ghost var keys: seq<Key>  // the key column

    /** Every row knows its position, and keys is the key column. */
    ghost predicate Numbered()
      reads this`rows, this`keys, rows`rowIndex, rows`key
    {
      && |keys| == |rows|
      && forall i :: 0 <= i < |rows| ==> rows[i].rowIndex == i && rows[i].key == keys[i]
    }

    ghost predicate Valid()
      reads this`rows, this`index, this`keys, rows`rowIndex, rows`key
    {
      Numbered() && Agree(keyType, keys, index)
    }

    constructor (keyType: KeyType)
      ensures Valid() && rows == [] && index == map[] && this.keyType == keyType
    {
      this.keyType, rows, index, keys := keyType, [], map[], [];
    }

    method GetRow(i: int) returns (row: TableRow?)
      ensures row == if 0 <= i < |rows| then rows[i] else null
    {
      if i < 0 || i >= |rows| {
        return null;
      }
      row := rows[i];
    }

    /** findRow: the row with this key, if and only if there is one. No other row is
        found, unless its key is the same up to the 64th character. */
    method FindRow(key: Key) returns (row: TableRow?)
      requires Valid()
      ensures row != null <==> TypeOf(key, keyType) && exists r :: r in rows && Alike(r.key, key)
      ensures row != null ==> row in rows && forall r :: r in rows && Alike(r.key, key) <==> r == row
      ensures row != null ==> 0 <= row.rowIndex < |rows| && rows[row.rowIndex] == row
      ensures row != null ==> Entry(key) in RowsBy(rows, index) && RowsBy(rows, index)[Entry(key)] == row
      ensures row == null && TypeOf(key, keyType) ==> Entry(key) !in RowsBy(rows, index)
    {
      row := null;
      if TypeOf(key, keyType) {
        FoundIffPresent(keyType, keys, index, Entry(key));
        LeadsTo(keyType, keys, index, key);
        if Entry(key) in index {
          row := GetRow(index[Entry(key)]);
        }
      }
    }

    method ClearRows()
      modifies this`rows, this`index, this`keys
      ensures Valid() && rows == [] && index == map[]
    {
      rows, index, keys := [], map[], [];
    }

    method AddRow() returns (row: TableRow?)
      requires Valid()
      modifies this`rows, this`keys
      ensures Valid()
      ensures if keyType.NoKey? then row != null && fresh(row) && rows == old(rows) + [row]
              else row == null && rows == old(rows)
    {
      row := null;
      if keyType.NoKey? {
        row := new TableRow(Blank(keyType), |rows|);
        rows := rows + [row];
        keys := keys + [row.key];
        forall i | 0 <= i < |rows|
          ensures KeyAt(keyType, keys, index, i)
        {
          assert i < |old(keys)| ==> KeyAt(keyType, old(keys), index, i);
        }
      }
    }

    /** addRowKey and addRowKeyString. The index is told first, and keeps what it has
        when the key is not new; a string too long for its column is not stored. So
        the table stays valid exactly for new keys that fit. */
    method AddRowKey(key: Key) returns (row: TableRow?)
      requires Valid()
      modifies this`rows, this`index, this`keys
      ensures row != null <==> TypeOf(key, keyType)
      ensures row == null ==> Valid() && rows == old(rows) && index == old(index)
      ensures row != null ==>
                && fresh(row) && rows == old(rows) + [row] && row.rowIndex == |old(rows)|
                && row.key == (if key.Num? || |key.s| < keyType.size then key else Text(""))
                && index == Inserted(old(index), key, |old(rows)|)
                && keys == old(keys) + [row.key]
                && Valid() == ((key.Num? || |key.s| < keyType.size)
                               && forall i :: 0 <= i < |old(keys)| ==> !Alike(old(keys)[i], key))
                && (Valid() ==> RowsBy(rows, index) == old(RowsBy(rows, index))[Entry(key) := row])
    {
      row := null;
      if TypeOf(key, keyType) {
        AddAgrees(keyType, keys, index, key);
        LeadsTo(keyType, keys, index, key);
        ghost var before := rows;
        row := new TableRow(Blank(keyType), |rows|);
        if Entry(key) !in index {
          index := index[Entry(key) := |rows|];
        }
        if Fits(key, keyType) {
          row.key := key;
        }
        if Entry(key) !in old(index) {
          AddRowBy(keyType, keys, old(index), key, before, row);
        }
        rows := rows + [row];
        keys := keys + [row.key];
      }
    }

    /** swapRowIndex. A row swapped with itself need not exist. */
    method SwapRowIndex(src: int, dst: int) returns (ok: bool)
      requires Valid()
      modifies this`rows, this`index, this`keys, rows`rowIndex
      ensures Valid()
      ensures ok == (src == dst || (0 <= src < |old(rows)| && 0 <= dst < |old(rows)|))
      ensures rows == if ok && src != dst then old(rows)[src := old(rows)[dst]][dst := old(rows)[src]] else old(rows)
      ensures RowsBy(rows, index) == old(RowsBy(rows, index))
    {
      if src == dst {
        return true;
      }
      var srcRow := GetRow(src);
      if srcRow == null {
        return false;
      }
      var dstRow := GetRow(dst);
      if dstRow == null {
        return false;
      }
      SwapAgrees(keyType, keys, index, src, dst, rows);
      if !keyType.NoKey? {
        index := index[Entry(srcRow.key) := dst];
        index := index[Entry(dstRow.key) := src];
      }
      rows := rows[src := dstRow];
      rows := rows[dst := srcRow];
      srcRow.rowIndex := dst;
      dstRow.rowIndex := src;
      keys := Swapped(keys, src, dst);
      ok := true;
    }

    /** delRow: the rows behind the deleted one move up. */
    method DelRow(i: int) returns (ok: bool)
      requires Valid()
      modifies this`rows, this`index, this`keys, rows`rowIndex
      ensures Valid() && ok == (0 <= i < |old(rows)|)
      ensures rows == if ok then Cut(old(rows), i) else old(rows)
      ensures RowsBy(rows, index) == old(RowsBy(rows, index)) - (if ok then {Entry(old(rows[i].key))} else {})
    {
      hide Agree, Reindexed, Entry, RowsBy;
      var row := GetRow(i);
      if row == null {
        return false;
      }
      DeleteAgrees(keyType, keys, index, i);
      DeleteRow(keyType, keys, index, i, rows);
      if !keyType.NoKey? {
        index := index - {Entry(row.key)};
      }
      rows := rows[..i] + rows[i + 1..];
      keys := Cut(keys, i);
      UpdateRowKeyIndex(i);
      ok := true;
    }

    /** updateRowKeyIndex. */
    method UpdateRowKeyIndex(from: nat)
      requires from <= |rows| == |keys| && forall i :: 0 <= i < |rows| ==> rows[i].key == keys[i]
      requires forall i, j :: 0 <= i < j < |rows| ==> rows[i] != rows[j]
      modifies this`index, rows`rowIndex
      ensures index == if keyType.NoKey? then old(index) else Reindexed(old(index), keys, from)
      ensures forall i :: 0 <= i < |rows| ==>
                rows[i].rowIndex == if i < from then old(rows[i].rowIndex) else i
    {
      var i := from;
      while i < |rows|
        invariant from <= i <= |rows|
        invariant forall j :: 0 <= j < |rows| ==>
                    rows[j].rowIndex == if from <= j < i then j else old(rows[j].rowIndex)
        invariant keyType.NoKey? ==> index == old(index)
        invariant !keyType.NoKey? ==> Reindexed(index, keys, i) == Reindexed(old(index), keys, from)
      {
        if !keyType.NoKey? {
          index := index[Entry(rows[i].key) := i];
        }
        rows[i].rowIndex := i;
        i := i + 1;
      }
    }

    /** changeKey. A number is compared with the old one, a string by where it lies in
        memory: sameBuffer says that it lies in the row itself. */
    method ChangeKey(newKey: Key, oldKey: Key, sameBuffer: bool)
      requires Entry(oldKey) in index
      modifies this`index
      ensures index == if (keyType.IntKeys? && newKey == oldKey) || sameBuffer then old(index)
                       else Rekeyed(old(index), newKey, oldKey)
    {
      if keyType.IntKeys? {
        if newKey == oldKey {
          return;
        }
      }
      if sameBuffer {
        return;
      }
      index := index[Entry(newKey) := index[Entry(oldKey)]];
      index := index - {Entry(oldKey)};
    }

    /** setData on the key column of a row. Afterwards the table is valid exactly when
        nothing had to change or the key is new to the index. A string that equals the
        one the row has is not new, and the row cannot be found any more. */
    method SetKey(row: TableRow, key: Key, sameBuffer: bool)
      requires Valid() && row in rows && TypeOf(key, keyType) && (sameBuffer ==> keyType.StringKeys? && key == row.key)
      modifies this`index, this`keys, row`key
      ensures rows == old(rows) && row.rowIndex == old(row.rowIndex)
      ensures key.Text? && |key.s| >= keyType.size ==> Valid() && row.key == old(row.key) && index == old(index)
      ensures key.Num? || |key.s| < keyType.size ==>
                && row.key == key
                && Entry(old(row.key)) in old(index)
                && index == (if (keyType.IntKeys? && key == old(row.key)) || sameBuffer then old(index)
                             else Rekeyed(old(index), key, old(row.key)))
                && Valid() == ((keyType.IntKeys? && key == old(row.key)) || sameBuffer
                               || forall i :: 0 <= i < |old(keys)| ==> !Alike(old(keys)[i], key))
                && (Valid() && key != old(row.key) ==>
                      RowsBy(rows, index) == (old(RowsBy(rows, index)) - {Entry(old(row.key))})[Entry(key) := row])
    {
      ghost var i := row.rowIndex;
      assert rows[i] == row && KeyAt(keyType, keys, index, i);
      if !Fits(key, keyType) {
        return;
      }
      RekeyAgrees(keyType, keys, index, i, key);
      LeadsTo(keyType, keys, index, key);
      if Entry(key) !in index {
        RekeyRowBy(keyType, keys, index, i, key, rows);
      }
      ChangeKey(key, row.key, sameBuffer);
      row.key := key;
      keys := keys[i := key];
      if old(row.key) == key {
        assert keys == old(keys);
      }
    }

    /** DEL_TABLE_ROW: the row changes places with the last and goes. To the users of
        the table it is the same as delRow. */
    method DelTableRow(row: TableRow)
      requires Valid() && row in rows
      modifies this`rows, this`index, this`keys, rows`rowIndex
      ensures Valid() && |rows| == |old(rows)| - 1
      ensures RowsBy(rows, index) == old(RowsBy(rows, index)) - {Entry(old(row.key))}
      ensures var i, last := old(row.rowIndex), |old(rows)| - 1;
              rows == old(rows)[i := old(rows)[last]][..last]
    {
      var lastRow := |rows| - 1;
      assert rows[row.rowIndex] == row;
      if lastRow != row.rowIndex {
        var swapped := SwapRowIndex(row.rowIndex, lastRow);
      }
      var done := DelRow(lastRow);
    }
  }

  /** A key given to two rows: the second row is in the table, and its key leads to the
      first. */
  method KeyGivenTwice() returns (table: TableControl, first: TableRow, second: TableRow)
    ensures !table.Valid() && first != second && table.rows == [first, second] && first.key == second.key == Num(1)
    ensures table.index == map[Num(1) := 0]
  {
    table := new TableControl(IntKeys);
    var row := table.AddRowKey(Num(1));
    first := row;
    row := table.AddRowKey(Num(1));
    second := row;
  }

  /** A row that is given the string it has: it is in the table and cannot be found. */
  method SameStringAgain() returns (table: TableControl, row: TableRow)
    ensures !table.Valid() && table.rows == [row] && row.key == Text("a") && table.index == map[]
  {
    table := new TableControl(StringKeys(8));
    var made := table.AddRowKey(Text("a"));
    row := made;
    table.SetKey(row, Text("a"), false);
    SameKeyIsForgotten(map[Text("a") := 0], Text("a"), Text("a"));
  }
}
