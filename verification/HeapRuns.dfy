/**
  * Whole runs of a heap: what a scan returns after any appends, deletions and updates, of rows that moved and rows that
  * did not.
  */
module HeapRuns {
  import opened Bytes
  import opened Storage
  import opened RowCodec
  import opened HeapSlots
  import opened HeapFile

  datatype Op = AppendOp(values: seq<Value>) | DeleteOp(rowid: nat) | UpdateOp(rowid: nat, values: seq<Value>)

  // ---- The table that a heap stands for

  /** A row, the bytes that it can be updated in, and whether an update has moved it. */
  datatype Entry = Entry(row: Row, size: nat, moved: bool)

  /** The rows in order, the rowid that the next row gets, and the bytes of all slots. */
  datatype Table = Table(entries: seq<Entry>, next: nat, used: nat)

  function TableRows(es: seq<Entry>): (rows: seq<Row>)
    ensures |rows| == |es| && forall i :: 0 <= i < |rows| ==> rows[i] == es[i].row
  {
    seq(|es|, i requires 0 <= i < |es| => es[i].row)
  }

  function Without(es: seq<Entry>, rowid: nat): seq<Entry> {
    if es == [] then []
    else (if es[0].row.rowid == rowid then [] else [es[0]]) + Without(es[1..], rowid)
  }

  function Renewed(es: seq<Entry>, row: Row): (r: seq<Entry>)
    ensures |r| == |es|
    ensures forall i :: 0 <= i < |r| ==> r[i] == if es[i].row.rowid == row.rowid then es[i].(row := row) else es[i]
  {
    seq(|es|, i requires 0 <= i < |es| => if es[i].row.rowid == row.rowid then es[i].(row := row) else es[i])
  }

  /** The place of the entry with this rowid. */
  function Find(es: seq<Entry>, rowid: nat): (i: nat)
    ensures i <= |es| && (i < |es| ==> es[i].row.rowid == rowid) && forall k :: 0 <= k < i ==> es[k].row.rowid != rowid
  {
    if es == [] || es[0].row.rowid == rowid then 0 else 1 + Find(es[1..], rowid)
  }

  /** The bytes that the row with this rowid can be updated in. */
  function Room(es: seq<Entry>, rowid: nat): nat {
    var i := Find(es, rowid);
    if i < |es| then es[i].size else 0
  }

  function RowSize(values: seq<Value>, types: Types, rowid: nat): nat {
    match EncodedRow(values, types, rowid) case Ok(b) => |b| case Err(_) => 0
  }

  /** An update that does not fit moves the row to the end and uses up a rowid. */
  function TableStep(t: Table, op: Op, types: Types): Table {
    match op
    case AppendOp(values) =>
      var size := RowSize(values, types, t.next);
      Table(t.entries + [Entry(Row(t.next, ReadBackAll(values)), size, false)], t.next + 1, t.used + 5 + size)
    case DeleteOp(rowid) => t.(entries := Without(t.entries, rowid))
    case UpdateOp(rowid, values) =>
      var i, row, size := Find(t.entries, rowid), Row(rowid, ReadBackAll(values)), RowSize(values, types, rowid);
      if i == |t.entries| then t
      else if size <= Room(t.entries, rowid) then t.(entries := Renewed(t.entries, row))
      else Table(Without(t.entries, rowid) + [Entry(row, size, true)], t.next + 1, t.used + 5 + size)
  }

  function TableAfter(ops: seq<Op>, types: Types): Table {
    if ops == [] then Table([], 1, 0) else TableStep(TableAfter(ops[..|ops| - 1], types), ops[|ops| - 1], types)
  }

  /**
    * Rows that can be stored; no deletion or update of a row that was moved before, and no update of one that is not
    * there.
    */
  predicate Proper(t: Table, op: Op, types: Types) {
    match op
    case AppendOp(values) => |values| == |types| && EncodedRow(values, types, t.next).Ok?
    case DeleteOp(rowid) => forall i :: 0 <= i < |t.entries| && t.entries[i].row.rowid == rowid ==> !t.entries[i].moved
    case UpdateOp(rowid, values) =>
      && |values| == |types| && EncodedRow(values, types, rowid).Ok?
      && Find(t.entries, rowid) < |t.entries| && !t.entries[Find(t.entries, rowid)].moved
  }

  /** The slots after the operation fit in the page and their number in its field. */
  predicate HasRoom(t: Table, op: Op, types: Types, room: nat) {
    var t' := TableStep(t, op, types);
    t'.next <= U16_LIMIT && 2 + t'.used <= room
  }

  /** Every operation in its turn is proper and has room. */
  predicate Doable(ops: seq<Op>, types: Types, room: nat) {
    forall i :: 0 <= i < |ops| ==>
      Proper(TableAfter(ops[..i], types), ops[i], types) && HasRoom(TableAfter(ops[..i], types), ops[i], types, room)
  }

  // ---- The slots of a table

  /** Of two slots with one rowid the earlier is dead: an update moved the row away from it. */
  ghost predicate EarlierDead(slots: seq<Slot>) {
    forall i, j :: 0 <= i < j < |slots| && slots[i].rowid == slots[j].rowid ==> !slots[i].alive
  }

  ghost predicate SeenBefore(slots: seq<Slot>, i: nat)
    requires i < |slots|
  {
    exists j :: 0 <= j < i && slots[j].rowid == slots[i].rowid
  }

  ghost function EntryAt(slots: seq<Slot>, i: nat, types: Types): seq<Entry>
    requires AllStorable(slots, types) && i < |slots|
  {
    if slots[i].alive
    then [Entry(Row(slots[i].rowid, ReadBackAll(slots[i].values)), |RowBytes(slots[i], types)|, SeenBefore(slots, i))]
    else []
  }

  /** The entries of the first `n` slots. */
  ghost function EntriesOf(slots: seq<Slot>, n: nat, types: Types): seq<Entry>
    requires AllStorable(slots, types) && n <= |slots|
  {
    if n == 0 then [] else EntriesOf(slots, n - 1, types) + EntryAt(slots, n - 1, types)
  }

  ghost predicate Stands(t: Table, slots: seq<Slot>, types: Types) {
    && AllStorable(slots, types) && RowidsBounded(slots) && EarlierDead(slots)
    && t == Table(EntriesOf(slots, |slots|, types), |slots| + 1, |AllBytes(slots, types)|)
  }

  // ---- Lists of entries

  lemma {:induction false} WithoutConcat(a: seq<Entry>, b: seq<Entry>, rowid: nat)
    ensures Without(a + b, rowid) == Without(a, rowid) + Without(b, rowid)
  {
    if a == [] {
      assert a + b == b;
    } else {
      WithoutConcat(a[1..], b, rowid);
      assert (a + b)[1..] == a[1..] + b && (a + b)[0] == a[0];
      Associative(if a[0].row.rowid == rowid then [] else [a[0]], Without(a[1..], rowid), Without(b, rowid));
    }
  }

  lemma WithoutOne(e: Entry, rowid: nat)
    ensures Without([e], rowid) == if e.row.rowid == rowid then [] else [e]
    ensures Without([], rowid) == []
  {
  }

  lemma RenewedConcat(a: seq<Entry>, b: seq<Entry>, row: Row)
    ensures Renewed(a + b, row) == Renewed(a, row) + Renewed(b, row)
  {
  }

  /** The rows of a table are the rows that a scan of its slots finds. */
  lemma {:induction false} EntriesAreRows(slots: seq<Slot>, n: nat, types: Types)
    requires AllStorable(slots, types) && n <= |slots|
    ensures TableRows(EntriesOf(slots, n, types)) == Rows(slots[..n])
  {
    hide Storable, Rows, ReadBackAll, RowBytes, SeenBefore;
    if n == 0 {
      StartOfWalk(slots, types);
    } else {
      EntriesAreRows(slots, n - 1, types);
      RowsStep(slots, n - 1);
      assert TableRows(EntriesOf(slots, n, types))
          == TableRows(EntriesOf(slots, n - 1, types)) + TableRows(EntryAt(slots, n - 1, types));
    }
  }

  /** Every entry is that of an alive slot, and the other way round. */
  lemma {:induction false} EntryHasSlot(slots: seq<Slot>, n: nat, types: Types, k: nat) returns (i: nat)
    requires AllStorable(slots, types) && n <= |slots| && k < |EntriesOf(slots, n, types)|
    ensures i < n && slots[i].alive && EntriesOf(slots, n, types)[k].row.rowid == slots[i].rowid
    ensures EntriesOf(slots, n, types)[k].moved == SeenBefore(slots, i)
    ensures EntriesOf(slots, n, types)[k].size == |RowBytes(slots[i], types)|
  {
    hide Storable, ReadBackAll, RowBytes, SeenBefore;
    if k < |EntriesOf(slots, n - 1, types)| {
      i := EntryHasSlot(slots, n - 1, types, k);
    } else {
      i := n - 1;
    }
  }

  lemma {:induction false} SlotHasEntry(slots: seq<Slot>, n: nat, types: Types, i: nat) returns (k: nat)
    requires AllStorable(slots, types) && i < n <= |slots| && slots[i].alive
    ensures k < |EntriesOf(slots, n, types)| && EntriesOf(slots, n, types)[k].row.rowid == slots[i].rowid
    ensures EntriesOf(slots, n, types)[k].moved == SeenBefore(slots, i)
  {
    hide Storable, ReadBackAll, RowBytes, SeenBefore;
    if i < n - 1 {
      k := SlotHasEntry(slots, n - 1, types, i);
    } else {
      k := |EntriesOf(slots, n - 1, types)|;
    }
  }

  // ---- What one changed slot changes in the table

  /** `slots'` has the same rowids, and the same slots but for slot `k`. */
  ghost predicate ChangedAt(slots: seq<Slot>, slots': seq<Slot>, k: nat) {
    && k < |slots| <= |slots'|
    && forall i :: 0 <= i < |slots| ==> slots'[i].rowid == slots[i].rowid && (i != k ==> slots'[i] == slots[i])
  }

  lemma SeenSame(slots: seq<Slot>, slots': seq<Slot>, k: nat, i: nat)
    requires ChangedAt(slots, slots', k) && i < |slots|
    ensures SeenBefore(slots', i) == SeenBefore(slots, i)
  {
    assert forall j :: 0 <= j < i ==> slots'[j].rowid == slots[j].rowid;
  }

  lemma EntrySame(slots: seq<Slot>, slots': seq<Slot>, k: nat, i: nat, types: Types)
    requires ChangedAt(slots, slots', k) && AllStorable(slots, types) && AllStorable(slots', types) && i < |slots|
    ensures i != k ==> EntryAt(slots', i, types) == EntryAt(slots, i, types)
  {
    hide Storable, ReadBackAll, RowBytes, SeenBefore;
    SeenSame(slots, slots', k, i);
  }

  /** With slot `k` dead the table is without its rowid, if no other alive slot has it. */
  lemma {:induction false} KilledEntries(slots: seq<Slot>, slots': seq<Slot>, k: nat, n: nat, types: Types)
    requires ChangedAt(slots, slots', k) && AllStorable(slots, types) && AllStorable(slots', types) && n <= |slots|
    requires !slots'[k].alive
    requires forall i :: 0 <= i < |slots| && i != k && slots[i].rowid == slots[k].rowid ==> !slots[i].alive
    ensures EntriesOf(slots', n, types) == Without(EntriesOf(slots, n, types), slots[k].rowid)
  {
    hide Storable, ReadBackAll, RowBytes, SeenBefore, Without;
    var rowid := slots[k].rowid;
    if n == 0 {
      WithoutOne(Entry(Row(0, []), 0, false), rowid);
    } else {
      KilledEntries(slots, slots', k, n - 1, types);
      EntrySame(slots, slots', k, n - 1, types);
      WithoutConcat(EntriesOf(slots, n - 1, types), EntryAt(slots, n - 1, types), rowid);
      if slots[n - 1].alive {
        WithoutOne(EntryAt(slots, n - 1, types)[0], rowid);
      } else {
        WithoutOne(Entry(Row(0, []), 0, false), rowid);
      }
    }
  }

  /**
    * With other values in slot `k`, in as many bytes, the table has them for its rowid, if no other alive slot has it.
    */
  lemma {:induction false} RenewedEntries(slots: seq<Slot>, slots': seq<Slot>, k: nat, n: nat, types: Types)
    requires ChangedAt(slots, slots', k) && AllStorable(slots, types) && AllStorable(slots', types) && n <= |slots|
    requires slots[k].alive && slots'[k].alive && |RowBytes(slots'[k], types)| == |RowBytes(slots[k], types)|
    requires forall i :: 0 <= i < |slots| && i != k && slots[i].rowid == slots[k].rowid ==> !slots[i].alive
    ensures EntriesOf(slots', n, types)
         == Renewed(EntriesOf(slots, n, types), Row(slots[k].rowid, ReadBackAll(slots'[k].values)))
  {
    hide Storable, ReadBackAll, RowBytes, SeenBefore;
    var row := Row(slots[k].rowid, ReadBackAll(slots'[k].values));
    if n > 0 {
      RenewedEntries(slots, slots', k, n - 1, types);
      EntrySame(slots, slots', k, n - 1, types);
      SeenSame(slots, slots', k, n - 1);
      RenewedConcat(EntriesOf(slots, n - 1, types), EntryAt(slots, n - 1, types), row);
      assert EntryAt(slots', n - 1, types) == Renewed(EntryAt(slots, n - 1, types), row);
    }
  }

  /** One more slot is one more entry. */
  lemma AddedEntry(slots: seq<Slot>, s: Slot, types: Types)
    requires AllStorable(slots, types) && Storable(s, types) && s.alive
    ensures
      var slots' := slots + [s];
      && AllStorable(slots', types)
      && EntriesOf(slots', |slots'|, types)
         == EntriesOf(slots, |slots|, types)
            + [Entry(Row(s.rowid, ReadBackAll(s.values)), |RowBytes(s, types)|,
                     exists j :: 0 <= j < |slots| && slots[j].rowid == s.rowid)]
      && |AllBytes(slots', types)| == |AllBytes(slots, types)| + 5 + |RowBytes(s, types)|
  {
    hide Storable, ReadBackAll, RowBytes, AllBytes, SlotBytes;
    var slots' := slots + [s];
    BytesAdded(slots, s, types);
    PrefixEntries(slots, slots', |slots|, types);
    assert SeenBefore(slots', |slots|) <==> exists j :: 0 <= j < |slots| && slots[j].rowid == s.rowid by {
      assert forall j :: 0 <= j < |slots| ==> slots'[j] == slots[j];
    }
  }

  lemma BytesAdded(slots: seq<Slot>, s: Slot, types: Types)
    requires AllStorable(slots, types) && Storable(s, types)
    ensures AllStorable(slots + [s], types)
    ensures |AllBytes(slots + [s], types)| == |AllBytes(slots, types)| + 5 + |RowBytes(s, types)|
  {
    hide Storable, RowBytes, SlotBytes;
    AllBytesConcat(slots, [s], types);
    assert AllBytes([s], types) == SlotBytes(s, types);
  }

  lemma {:induction false} PrefixEntries(slots: seq<Slot>, slots': seq<Slot>, n: nat, types: Types)
    requires AllStorable(slots, types) && AllStorable(slots', types) && n <= |slots| <= |slots'|
    requires slots'[..|slots|] == slots
    ensures EntriesOf(slots', n, types) == EntriesOf(slots, n, types)
  {
    hide Storable, ReadBackAll, RowBytes, SeenBefore;
    if n > 0 {
      PrefixEntries(slots, slots', n - 1, types);
      assert slots'[n - 1] == slots'[..|slots|][n - 1];
      SeenPrefix(slots, slots', n - 1);
    }
  }

  lemma SeenPrefix(slots: seq<Slot>, slots': seq<Slot>, i: nat)
    requires i < |slots| <= |slots'| && slots'[..|slots|] == slots
    ensures SeenBefore(slots', i) == SeenBefore(slots, i)
  {
    assert forall j :: 0 <= j < |slots| ==> slots'[j] == slots[j];
  }

  /** Putting a slot of the same size in the place of another keeps the size of the whole. */
  lemma SameBytes(slots: seq<Slot>, k: nat, s: Slot, types: Types)
    requires AllStorable(slots, types) && Storable(s, types) && k < |slots|
    requires |RowBytes(s, types)| == |RowBytes(slots[k], types)|
    ensures AllStorable(slots[k := s], types) && |AllBytes(slots[k := s], types)| == |AllBytes(slots, types)|
  {
    hide Storable, RowBytes, AllBytes, SlotBytes;
    var slots' := slots[k := s];
    AroundSlot(slots, k, types);
    AroundSlot(slots', k, types);
    assert slots'[..k] == slots[..k] && slots'[k + 1..] == slots[k + 1..];
  }

  // ---- One operation

  /** The slots after an operation. */
  ghost function SlotsStep(slots: seq<Slot>, op: Op, types: Types): seq<Slot> {
    match op
    case AppendOp(values) => Appended(slots, values)
    case DeleteOp(rowid) => Deleted(slots, rowid)
    case UpdateOp(rowid, values) =>
      if AllStorable(slots, types) && FirstWith(slots, rowid) < |slots| && EncodedRow(values, types, rowid).Ok?
      then Updated(slots, rowid, values, types) else slots
  }

  /** A row with an entry that was not moved has one slot, which is alive. */
  lemma UnmovedIsOnly(t: Table, slots: seq<Slot>, types: Types, rowid: nat)
    requires Stands(t, slots, types) && Find(t.entries, rowid) < |t.entries| && !t.entries[Find(t.entries, rowid)].moved
    ensures
      var k := FirstWith(slots, rowid);
      OnlyAt(slots, k) && slots[k].rowid == rowid && Room(t.entries, rowid) == |RowBytes(slots[k], types)|
  {
    hide Storable, RowBytes, EntriesOf;
    var i := EntryHasSlot(slots, |slots|, types, Find(t.entries, rowid));
    assert forall j :: 0 <= j < i ==> slots[j].rowid != rowid;
    IsFirst(slots, rowid, i);
  }

  /** A deletion is proper exactly when no alive slot with its rowid comes after the first one. */
  lemma ProperDeletion(t: Table, slots: seq<Slot>, types: Types, rowid: nat)
    requires Stands(t, slots, types)
    ensures Proper(t, DeleteOp(rowid), types) <==> !LaterVersion(slots, rowid)
  {
    hide Storable, RowBytes, EntriesOf, FirstWith;
    if Proper(t, DeleteOp(rowid), types) && LaterVersion(slots, rowid) {
      var j :| FirstWith(slots, rowid) < j < |slots| && slots[j].alive && slots[j].rowid == rowid;
      assert SeenBefore(slots, j);
      var k := SlotHasEntry(slots, |slots|, types, j);
      assert false;
    }
    if !Proper(t, DeleteOp(rowid), types) {
      var k :| 0 <= k < |t.entries| && t.entries[k].row.rowid == rowid && t.entries[k].moved;
      var i := EntryHasSlot(slots, |slots|, types, k);
      var j :| 0 <= j < i && slots[j].rowid == slots[i].rowid;
      assert FirstWith(slots, rowid) <= j;
    }
  }

  lemma StepAppend(t: Table, slots: seq<Slot>, types: Types, values: seq<Value>)
    requires Stands(t, slots, types) && Proper(t, AppendOp(values), types)
    requires Storable(Slot(true, |slots| + 1, values, 0), types)
    ensures Stands(TableStep(t, AppendOp(values), types), Appended(slots, values), types)
  {
    hide Storable, EntriesOf, AllBytes, ReadBackAll, EncodedRow;
    var s := Slot(true, |slots| + 1, values, 0);
    AddedEntry(slots, s, types);
    UnpaddedSize(s, types);
    RowidsStayBounded(slots, 0, values, types);
  }

  lemma UnpaddedSize(s: Slot, types: Types)
    requires Storable(s, types) && s.padding == 0
    ensures |RowBytes(s, types)| == RowSize(s.values, types, s.rowid)
  {
    hide EncodedRow;
  }

  lemma StepDelete(t: Table, slots: seq<Slot>, types: Types, rowid: nat)
    requires Stands(t, slots, types) && Proper(t, DeleteOp(rowid), types)
    ensures Stands(TableStep(t, DeleteOp(rowid), types), Deleted(slots, rowid), types)
  {
    hide EntriesOf, AllBytes, ReadBackAll, RowBytes, EncodedRow, FirstWith, Without;
    ProperDeletion(t, slots, types, rowid);
    var k := FirstWith(slots, rowid);
    if k == |slots| {
      NoSuchEntry(slots, |slots|, types, rowid);
    } else {
      var dead := slots[k].(alive := false);
      SameRow(slots[k], types);
      SameBytes(slots, k, dead, types);
      assert forall i :: 0 <= i < |slots| && i != k && slots[i].rowid == rowid ==> !slots[i].alive;
      assert Deleted(slots, rowid) == slots[k := dead];
      KilledEntries(slots, slots[k := dead], k, |slots|, types);
      SameLength(slots, slots[k := dead], k, types);
    }
  }

  lemma SameLength(slots: seq<Slot>, slots': seq<Slot>, k: nat, types: Types)
    requires ChangedAt(slots, slots', k) && |slots'| == |slots| && RowidsBounded(slots) && EarlierDead(slots)
    requires slots'[k].alive ==> slots[k].alive
    ensures RowidsBounded(slots') && EarlierDead(slots')
  {
  }

  lemma {:induction false} NoSuchEntry(slots: seq<Slot>, n: nat, types: Types, rowid: nat)
    requires AllStorable(slots, types) && n <= |slots| && forall i :: 0 <= i < |slots| ==> slots[i].rowid != rowid
    ensures Without(EntriesOf(slots, n, types), rowid) == EntriesOf(slots, n, types)
  {
    hide Storable, ReadBackAll, RowBytes, SeenBefore, Without;
    WithoutOne(Entry(Row(0, []), 0, false), rowid);
    if n > 0 {
      NoSuchEntry(slots, n - 1, types, rowid);
      WithoutConcat(EntriesOf(slots, n - 1, types), EntryAt(slots, n - 1, types), rowid);
      if slots[n - 1].alive {
        WithoutOne(EntryAt(slots, n - 1, types)[0], rowid);
      }
    }
  }

  lemma StepUpdate(t: Table, slots: seq<Slot>, types: Types, rowid: nat, values: seq<Value>)
    requires Stands(t, slots, types) && Proper(t, UpdateOp(rowid, values), types)
    requires 1 + RowSize(values, types, rowid) < U32_LIMIT
    ensures FirstWith(slots, rowid) < |slots|
    ensures Stands(TableStep(t, UpdateOp(rowid, values), types), Updated(slots, rowid, values, types), types)
  {
    hide Stands, EntriesOf, AllBytes, ReadBackAll, RowBytes, EncodedRow, FirstWith, Without, Renewed, Find;
    UnmovedIsOnly(t, slots, types, rowid);
    var k := FirstWith(slots, rowid);
    if RowSize(values, types, rowid) <= Room(t.entries, rowid) {
      StepInPlace(t, slots, types, rowid, values);
    } else {
      StepMove(t, slots, types, rowid, values);
    }
  }

  lemma StepInPlace(t: Table, slots: seq<Slot>, types: Types, rowid: nat, values: seq<Value>)
    requires Stands(t, slots, types) && Proper(t, UpdateOp(rowid, values), types)
    requires OnlyAt(slots, FirstWith(slots, rowid))
    requires FitsInPlace(slots, rowid, values, types) && RowSize(values, types, rowid) <= Room(t.entries, rowid)
    ensures Stands(TableStep(t, UpdateOp(rowid, values), types), Updated(slots, rowid, values, types), types)
  {
    hide EntriesOf, AllBytes, ReadBackAll, RowBytes, EncodedRow, FirstWith, Without, Renewed, Find, Storable;
    var k := FirstWith(slots, rowid);
    var s := Slot(true, rowid, values, |RowBytes(slots[k], types)| - RowSize(values, types, rowid));
    StorableInPlace(slots[k], s, types);
    PaddedSize(slots[k], s, types);
    SameBytes(slots, k, s, types);
    assert Updated(slots, rowid, values, types) == slots[k := s];
    RenewedEntries(slots, slots[k := s], k, |slots|, types);
    SameLength(slots, slots[k := s], k, types);
  }

  lemma PaddedSize(was: Slot, s: Slot, types: Types)
    requires Storable(was, types) && Storable(s, types)
    requires RowSize(s.values, types, s.rowid) + s.padding == |RowBytes(was, types)|
    ensures |RowBytes(s, types)| == |RowBytes(was, types)|
  {
    hide EncodedRow;
  }

  lemma StepMove(t: Table, slots: seq<Slot>, types: Types, rowid: nat, values: seq<Value>)
    requires Stands(t, slots, types) && Proper(t, UpdateOp(rowid, values), types)
    requires OnlyAt(slots, FirstWith(slots, rowid))
    requires !FitsInPlace(slots, rowid, values, types) && RowSize(values, types, rowid) > Room(t.entries, rowid)
    requires 1 + RowSize(values, types, rowid) < U32_LIMIT
    ensures Stands(TableStep(t, UpdateOp(rowid, values), types), Updated(slots, rowid, values, types), types)
  {
    hide EntriesOf, AllBytes, ReadBackAll, RowBytes, EncodedRow, FirstWith, Without, Renewed, Find, Storable;
    var k := FirstWith(slots, rowid);
    var dead, s := slots[k].(alive := false), Slot(true, rowid, values, 0);
    StorableNew(s, types);
    UnpaddedSize(s, types);
    SameRow(slots[k], types);
    SameBytes(slots, k, dead, types);
    var killed := slots[k := dead];
    KilledEntries(slots, killed, k, |slots|, types);
    SameLength(slots, killed, k, types);
    AddedEntry(killed, s, types);
    assert killed[k].rowid == rowid;
    assert Updated(slots, rowid, values, types) == killed + [s];
  }

  lemma StorableNew(s: Slot, types: Types)
    requires |s.values| == |types| && EncodedRow(s.values, types, s.rowid).Ok? && s.padding == 0
    requires 1 + RowSize(s.values, types, s.rowid) < U32_LIMIT
    ensures Storable(s, types)
  {
    hide EncodedRow;
  }

  lemma OneStep(t: Table, slots: seq<Slot>, op: Op, types: Types, room: nat)
    requires Stands(t, slots, types) && Proper(t, op, types) && HasRoom(t, op, types, room) && room < U32_LIMIT
    ensures Stands(TableStep(t, op, types), SlotsStep(slots, op, types), types)
  {
    hide EntriesOf, AllBytes, ReadBackAll, RowBytes, EncodedRow, FirstWith, Without, Renewed, Find, Storable,
         EarlierDead, RowidsBounded;
    match op
    case AppendOp(values) =>
      StorableNew(Slot(true, |slots| + 1, values, 0), types);
      StepAppend(t, slots, types, values);
    case DeleteOp(rowid) =>
      StepDelete(t, slots, types, rowid);
    case UpdateOp(rowid, values) =>
      if RowSize(values, types, rowid) > Room(t.entries, rowid) {
        StepUpdate(t, slots, types, rowid, values);
      } else {
        UnmovedIsOnly(t, slots, types, rowid);
        SlotBelowLimit(slots, FirstWith(slots, rowid), types);
        StepUpdate(t, slots, types, rowid, values);
      }
  }

  lemma SlotBelowLimit(slots: seq<Slot>, k: nat, types: Types)
    requires AllStorable(slots, types) && k < |slots|
    ensures 1 + |RowBytes(slots[k], types)| < U32_LIMIT
  {
  }

  // ---- Whole runs

  ghost function SlotsAfter(ops: seq<Op>, types: Types): seq<Slot> {
    if ops == [] then [] else SlotsStep(SlotsAfter(ops[..|ops| - 1], types), ops[|ops| - 1], types)
  }

  lemma Prefixes(ops: seq<Op>, types: Types, room: nat, n: nat)
    requires Doable(ops, types, room) && n <= |ops|
    ensures Doable(ops[..n], types, room)
    ensures n < |ops| ==> SlotsAfter(ops[..n + 1], types) == SlotsStep(SlotsAfter(ops[..n], types), ops[n], types)
  {
    hide Proper, HasRoom, SlotsStep, TableAfter;
    assert forall i :: 0 <= i < n ==> ops[..n][..i] == ops[..i];
    if n < |ops| {
      assert ops[..n + 1][..n] == ops[..n];
    }
  }

  /** After any run the heap's slots are those of the table, and so are its rows. */
  lemma {:induction false} HeapIsTable(ops: seq<Op>, types: Types, room: nat)
    requires Doable(ops, types, room) && room < U32_LIMIT
    ensures Stands(TableAfter(ops, types), SlotsAfter(ops, types), types)
    ensures Rows(SlotsAfter(ops, types)) == TableRows(TableAfter(ops, types).entries)
  {
    hide Proper, HasRoom, TableStep, SlotsStep, EarlierDead, RowidsBounded, Storable, Rows;
    if ops == [] {
      NothingThere(types);
    } else {
      var n := |ops| - 1;
      Prefixes(ops, types, room, n);
      HeapIsTable(ops[..n], types, room);
      OneStep(TableAfter(ops[..n], types), SlotsAfter(ops[..n], types), ops[n], types, room);
    }
    var slots := SlotsAfter(ops, types);
    EntriesAreRows(slots, |slots|, types);
    assert slots[..|slots|] == slots;
  }

  lemma NothingThere(types: Types)
    ensures Stands(Table([], 1, 0), [], types)
  {
  }

  /** A deletion refines the table's deletion exactly when it is proper. */
  lemma DeletionExact(t: Table, slots: seq<Slot>, types: Types, rowid: nat)
    requires Stands(t, slots, types)
    ensures Rows(Deleted(slots, rowid)) == Others(Rows(slots), rowid) <==> Proper(t, DeleteOp(rowid), types)
  {
    hide Rows, Deleted, Others, Versions, EntriesOf, AllBytes, Storable, EarlierDead, RowidsBounded, LaterVersion;
    ProperDeletion(t, slots, types, rowid);
    DeletedRow(slots, rowid);
    OthersAreAll(Rows(Deleted(slots, rowid)), rowid);
    OthersHaveNone(Rows(slots), rowid);
  }

  /**
    * An update of a row that has a slot refines the table's update exactly when it is proper: a row that was moved
    * before is in the scan twice afterwards, and one that was deleted is there again.
    */
  lemma UpdateExact(t: Table, slots: seq<Slot>, types: Types, rowid: nat, values: seq<Value>)
    requires Stands(t, slots, types) && FirstWith(slots, rowid) < |slots|
    requires |values| == |types| && EncodedRow(values, types, rowid).Ok?
    requires 1 + RowSize(values, types, rowid) < U32_LIMIT
    ensures Rows(Updated(slots, rowid, values, types))
         == TableRows(TableStep(t, UpdateOp(rowid, values), types).entries)
       <==> Proper(t, UpdateOp(rowid, values), types)
  {
    hide Rows, EntriesOf, AllBytes, Storable, EarlierDead, RowidsBounded, EncodedRow, FirstWith, Find, Without, Renewed,
         ReadBackAll, RowBytes, Updated;
    var slots', t' := Updated(slots, rowid, values, types), TableStep(t, UpdateOp(rowid, values), types);
    if Proper(t, UpdateOp(rowid, values), types) {
      StepUpdate(t, slots, types, rowid, values);
      EntriesAreRows(slots', |slots'|, types);
      assert slots'[..|slots'|] == slots';
    } else {
      EntriesAreRows(slots, |slots|, types);
      assert slots[..|slots|] == slots;
      DeadFirst(t, slots, types, rowid);
      DeadFirstGrows(slots, rowid, values, types);
      NoLonger(t, types, rowid, values);
    }
  }

  /** The first slot of a row that was moved or deleted is dead. */
  lemma DeadFirst(t: Table, slots: seq<Slot>, types: Types, rowid: nat)
    requires Stands(t, slots, types) && FirstWith(slots, rowid) < |slots|
    requires Find(t.entries, rowid) < |t.entries| ==> t.entries[Find(t.entries, rowid)].moved
    ensures !slots[FirstWith(slots, rowid)].alive
  {
    hide Storable, RowBytes, EntriesOf;
    var k := FirstWith(slots, rowid);
    if slots[k].alive {
      var e := SlotHasEntry(slots, |slots|, types, k);
      var f := Find(t.entries, rowid);
      var i := EntryHasSlot(slots, |slots|, types, f);
    }
  }

  /** With a dead first slot an update adds a row to the scan, in the slot's place or at the end. */
  lemma DeadFirstGrows(slots: seq<Slot>, rowid: nat, values: seq<Value>, types: Types)
    requires AllStorable(slots, types) && FirstWith(slots, rowid) < |slots| && EncodedRow(values, types, rowid).Ok?
    requires !slots[FirstWith(slots, rowid)].alive
    ensures |Rows(Updated(slots, rowid, values, types))| == |Rows(slots)| + 1
  {
    hide FirstWith, RowBytes, EncodedRow, ReadBackAll, Rows, Storable;
    var k := FirstWith(slots, rowid);
    var slots' := Updated(slots, rowid, values, types);
    if FitsInPlace(slots, rowid, values, types) {
      RowsAt(slots, k);
      RowsAt(slots', k);
      assert slots'[..k] == slots[..k] && slots'[k + 1..] == slots[k + 1..];
    } else {
      assert slots' == slots + [Slot(true, rowid, values, 0)];
      RowsConcat(slots, [Slot(true, rowid, values, 0)]);
      RowsAt([Slot(true, rowid, values, 0)], 0);
    }
  }

  lemma RowsAt(slots: seq<Slot>, k: nat)
    requires k < |slots|
    ensures |Rows(slots)| == |Rows(slots[..k])| + (if slots[k].alive then 1 else 0) + |Rows(slots[k + 1..])|
    ensures |slots| == 1 ==> |Rows(slots)| == if slots[k].alive then 1 else 0
  {
    Around(slots, k);
    RowsConcat(slots[..k] + [slots[k]], slots[k + 1..]);
    RowsConcat(slots[..k], [slots[k]]);
    assert [slots[k]][1..] == [];
  }

  /** No update makes a table longer. */
  lemma NoLonger(t: Table, types: Types, rowid: nat, values: seq<Value>)
    ensures |TableStep(t, UpdateOp(rowid, values), types).entries| <= |t.entries|
  {
    if Find(t.entries, rowid) < |t.entries| {
      WithoutFewer(t.entries, rowid);
    }
  }

  lemma {:induction false} WithoutFewer(es: seq<Entry>, rowid: nat)
    ensures |Without(es, rowid)| <= |es|
    ensures Find(es, rowid) < |es| ==> |Without(es, rowid)| < |es|
  {
    if es != [] {
      WithoutFewer(es[1..], rowid);
    }
  }

  lemma {:induction false} OthersAreAll(rows: seq<Row>, rowid: nat)
    ensures Versions(rows, rowid) == [] ==> Others(rows, rowid) == rows
  {
    if rows != [] {
      OthersAreAll(rows[1..], rowid);
    }
  }

  lemma {:induction false} OthersHaveNone(rows: seq<Row>, rowid: nat)
    ensures Versions(Others(rows, rowid), rowid) == []
  {
    if rows != [] {
      OthersHaveNone(rows[1..], rowid);
      VersionsConcat(Kept(rows[0], rows[0].rowid != rowid), Others(rows[1..], rowid), rowid);
    } else {
      OneVersionNone(rowid);
    }
  }

  // ---- The heap itself

  /** The bytes of a page tell how many slots it has and how much of its body they use. */
  lemma PageMeasures(raw: seq<Byte>, root: nat, t: Table, slots: seq<Slot>, types: Types)
    requires PageHolds(raw, root, slots, types) && Stands(t, slots, types)
    ensures Max(2, |BodyOf(raw)|) == 2 + t.used && |BodyOf(raw)| <= |raw| - FILE_HEADER_SIZE
    ensures t.next == |slots| + 1 <= U16_LIMIT && (slots != [] ==> |BodyOf(raw)| >= 2)
    ensures forall more :: |more| != |slots| ==> !PageHolds(raw, root, more, types)
  {
    hide ParsePage, EntriesOf, Storable, EarlierDead, RowidsBounded;
    ReadPageFits(raw);
    forall more | PageHolds(raw, root, more, types) ensures |more| == |slots| {
      SameCount(BodyOf(raw), slots, more, types);
    }
  }

  lemma SameCount(body: seq<Byte>, slots: seq<Slot>, more: seq<Slot>, types: Types)
    requires Represents(body, slots, types) && Represents(body, more, types)
    ensures |slots| == |more|
  {
    hide Storable, AllBytes, U16, GetU16;
    if body != [] {
      assert body[..2] == U16(|slots|) == U16(|more|);
      assert GetU16(U16(|slots|)) == |slots| && GetU16(U16(|more|)) == |more|;
    }
  }

  /** One operation on the heap's page, which goes as on the table exactly when the page has room for its slots. */
  method Perform(heap: Heap, op: Op, ghost t: Table, ghost slots: seq<Slot>)
    requires heap.Holds(slots) && Stands(t, slots, heap.types) && Proper(t, op, heap.types)
    modifies heap.store`pages
    ensures heap.Usable()
    ensures heap.Holds(SlotsStep(slots, op, heap.types)) <==> HasRoom(t, op, heap.types, BodyRoom(heap.store.pageSize))
  {
    hide EncodedRow, AllBytes, RowBytes, FreeChain, ParsePage, EntriesOf, FirstWith, Find, Storable, EarlierDead,
         RowidsBounded, PageHolds, BodyOf;
    PageMeasures(heap.store.pages[heap.root], heap.root, t, slots, heap.types);
    match op
    case AppendOp(values) =>
      var r := heap.Append(values, slots);
    case DeleteOp(rowid) =>
      var ok := heap.Delete(rowid, slots);
    case UpdateOp(rowid, values) =>
      UnmovedIsOnly(t, slots, heap.types, rowid);
      var ok := heap.Update(rowid, values, slots);
  }

  /** A run on a page without rows, and a scan behind it: the scan returns the rows of the table. */
  method Run(heap: Heap, ops: seq<Op>) returns (rows: Result<seq<Row>>)
    requires heap.Holds([]) && Doable(ops, heap.types, BodyRoom(heap.store.pageSize))
    modifies heap.store`pages
    ensures rows == Ok(TableRows(TableAfter(ops, heap.types).entries))
  {
    hide Proper, HasRoom, SlotsStep, TableStep, PageHolds, FreeChain, Rows, Stands;
    var i := 0;
    while i < |ops|
      invariant i <= |ops| && heap.Holds(SlotsAfter(ops[..i], heap.types))
    {
      Prefixes(ops, heap.types, BodyRoom(heap.store.pageSize), i);
      HeapIsTable(ops[..i], heap.types, BodyRoom(heap.store.pageSize));
      Perform(heap, ops[i], TableAfter(ops[..i], heap.types), SlotsAfter(ops[..i], heap.types));
      i := i + 1;
    }
    assert ops[..i] == ops;
    HeapIsTable(ops, heap.types, BodyRoom(heap.store.pageSize));
    rows := heap.Scan();
  }
}
