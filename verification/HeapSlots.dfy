/** What a heap page's body says: slots in the order they were written, each alive or deleted. */
module HeapSlots {
  import opened Bytes
  import opened RowCodec

  /** `padding` counts the zero bytes that an update in place left behind a shorter row. */
  datatype Slot = Slot(alive: bool, rowid: nat, values: seq<Value>, padding: nat)

  /** A row as a scan returns it. */
  datatype Row = Row(rowid: nat, values: seq<Value>)

  type Types = seq<ColumnType>

  ghost predicate Storable(s: Slot, types: Types) {
    && |s.values| == |types| && EncodedRow(s.values, types, s.rowid).Ok?
    && 1 + |EncodedRow(s.values, types, s.rowid).value| + s.padding < U32_LIMIT
  }

  ghost predicate AllStorable(slots: seq<Slot>, types: Types) {
    forall i :: 0 <= i < |slots| ==> Storable(slots[i], types)
  }

  ghost function RowBytes(s: Slot, types: Types): (b: seq<Byte>)
    requires Storable(s, types)
    ensures |b| >= ROW_HEADER_SIZE
  {
    EncodedRow(s.values, types, s.rowid).value + Zeros(s.padding)
  }

  ghost function SlotBytes(s: Slot, types: Types): (b: seq<Byte>)
    requires Storable(s, types)
    ensures |b| == 5 + |RowBytes(s, types)|
  {
    U32(1 + |RowBytes(s, types)|) + [if s.alive then 0 else 1] + RowBytes(s, types)
  }

  ghost function AllBytes(slots: seq<Slot>, types: Types): seq<Byte>
    requires AllStorable(slots, types)
  {
    if slots == [] then [] else SlotBytes(slots[0], types) + AllBytes(slots[1..], types)
  }

  /** The page body for these slots; a new page's body is empty, without even a count. */
  ghost predicate Represents(body: seq<Byte>, slots: seq<Slot>, types: Types) {
    && AllStorable(slots, types) && |slots| < U16_LIMIT
    && (body == U16(|slots|) + AllBytes(slots, types) || (body == [] && slots == []))
  }

  lemma {:induction false} AllBytesConcat(a: seq<Slot>, b: seq<Slot>, types: Types)
    requires AllStorable(a, types) && AllStorable(b, types)
    ensures AllStorable(a + b, types) && AllBytes(a + b, types) == AllBytes(a, types) + AllBytes(b, types)
  {
    hide SlotBytes, Storable;
    if a == [] {
      assert a + b == b;
    } else {
      AllBytesConcat(a[1..], b, types);
      assert (a + b)[1..] == a[1..] + b;
      Associative(SlotBytes(a[0], types), AllBytes(a[1..], types), AllBytes(b, types));
    }
  }

  /** Where slot `i` starts. */
  ghost function Offset(slots: seq<Slot>, i: nat, types: Types): (at: nat)
    requires AllStorable(slots, types) && i <= |slots|
    ensures at >= 2
  {
    2 + |AllBytes(slots[..i], types)|
  }

  lemma AroundSlot(slots: seq<Slot>, i: nat, types: Types)
    requires AllStorable(slots, types) && i < |slots|
    ensures AllBytes(slots, types)
         == AllBytes(slots[..i], types) + SlotBytes(slots[i], types) + AllBytes(slots[i + 1..], types)
    ensures Offset(slots, i + 1, types) == Offset(slots, i, types) + |SlotBytes(slots[i], types)|
  {
    hide SlotBytes, Storable;
    var one := [slots[i]];
    assert AllBytes(one, types) == SlotBytes(slots[i], types);
    AllBytesConcat(slots[..i], one, types);
    assert slots[..i + 1] == slots[..i] + one;
    AllBytesConcat(slots[..i] + one, slots[i + 1..], types);
    Around(slots, i);
  }

  /** What the walk over a body finds at slot `i`. */
  lemma SlotAt(body: seq<Byte>, slots: seq<Slot>, i: nat, types: Types)
    requires Represents(body, slots, types) && i < |slots|
    ensures
      var at := Offset(slots, i, types);
      var raw := RowBytes(slots[i], types);
      && at + 5 + |raw| == Offset(slots, i + 1, types) <= |body|
      && body[..at] == U16(|slots|) + AllBytes(slots[..i], types)
      && body[at..at + 4] == U32(1 + |raw|)
      && body[at + 4..at + 5 + |raw|] == [if slots[i].alive then 0 else 1] + raw
      && body[at + 5 + |raw|..] == AllBytes(slots[i + 1..], types)
  {
    hide U16, U32, RowBytes, AllBytes, Storable;
    AroundSlot(slots, i, types);
    var raw := RowBytes(slots[i], types);
    var before, behind := AllBytes(slots[..i], types), AllBytes(slots[i + 1..], types);
    var here := SlotBytes(slots[i], types);
    assert body == (U16(|slots|) + before) + here + behind;
    var at := |U16(|slots|) + before|;
    assert body[at..at + |here|] == here;
    assert here[..4] == U32(1 + |raw|);
    assert here[4..] == [if slots[i].alive then 0 else 1] + raw;
    assert body[at..at + 4] == here[..4];
    assert body[at + 4..at + |here|] == here[4..];
  }

  /** Putting as many bytes in the place of a slot's bytes changes that slot and nothing else. */
  lemma SlotReplaced(body: seq<Byte>, slots: seq<Slot>, i: nat, s: Slot, types: Types)
    requires Represents(body, slots, types) && i < |slots| && Storable(s, types)
    requires |RowBytes(s, types)| == |RowBytes(slots[i], types)|
    ensures Offset(slots, i, types) + |SlotBytes(s, types)| <= |body|
    ensures Represents(Patched(body, Offset(slots, i, types), SlotBytes(s, types)), slots[i := s], types)
  {
    hide U16, U32, RowBytes, AllBytes, Storable, SlotBytes, Zeros;
    SlotAt(body, slots, i, types);
    var slots' := slots[i := s];
    AroundSlot(slots', i, types);
    assert slots'[..i] == slots[..i] && slots'[i + 1..] == slots[i + 1..];
    Associative(U16(|slots|), AllBytes(slots[..i], types), SlotBytes(s, types));
    Associative(U16(|slots|), AllBytes(slots[..i], types) + SlotBytes(s, types), AllBytes(slots[i + 1..], types));
  }

  lemma MarkedBytes(body: seq<Byte>, at: nat, length: seq<Byte>, raw: seq<Byte>)
    requires |length| == 4 && at + 5 + |raw| <= |body|
    requires body[at..at + 4] == length && body[at + 4..at + 5 + |raw|][1..] == raw
    ensures Patched(body, at + 4, [1]) == Patched(body, at, length + [1] + raw)
  {
    var marked := Patched(body, at + 4, [1]);
    assert marked[..at] == body[..at] && marked[at + 5 + |raw|..] == body[at + 5 + |raw|..];
    assert marked[at + 5..at + 5 + |raw|] == body[at + 4..at + 5 + |raw|][1..];
    assert marked
        == marked[..at] + (marked[at..at + 4] + [marked[at + 4]] + marked[at + 5..at + 5 + |raw|])
         + marked[at + 5 + |raw|..];
  }

  /** Setting a slot's flag. */
  lemma SlotMarked(body: seq<Byte>, slots: seq<Slot>, i: nat, types: Types)
    requires Represents(body, slots, types) && i < |slots|
    ensures Offset(slots, i, types) + 5 <= |body|
    ensures Represents(Patched(body, Offset(slots, i, types) + 4, [1]), slots[i := slots[i].(alive := false)], types)
  {
    hide U16, U32, RowBytes, AllBytes, Storable, Zeros, Patched;
    var at, dead, raw := Offset(slots, i, types), slots[i].(alive := false), RowBytes(slots[i], types);
    assert Storable(dead, types) && RowBytes(dead, types) == raw by {
      SameRow(slots[i], types);
    }
    SlotAt(body, slots, i, types);
    SlotReplaced(body, slots, i, dead, types);
    MarkedBytes(body, at, U32(1 + |raw|), raw);
  }

  lemma SameRow(s: Slot, types: Types)
    requires Storable(s, types)
    ensures Storable(s.(alive := false), types) && RowBytes(s.(alive := false), types) == RowBytes(s, types)
  {
  }

  /** Writing a row that is not longer over a slot's row, with zeros behind it. */
  lemma SlotOverwritten(body: seq<Byte>, slots: seq<Slot>, i: nat, s: Slot, row: seq<Byte>, types: Types)
    requires Represents(body, slots, types) && i < |slots| && Storable(s, types) && s.alive
    requires EncodedRow(s.values, types, s.rowid) == Ok(row) && |row| + s.padding == |RowBytes(slots[i], types)|
    ensures
      var at, n := Offset(slots, i, types), |row| + s.padding;
      && at + 5 + n <= |body|
      && var body1 := Patched(body, at, U32(1 + n));
         var body2 := Patched(body1, at + 4, [0]);
         var body3 := Patched(body2, at + 5, row);
         Represents(Patched(body3, at + 5 + |row|, Zeros(s.padding)), slots[i := s], types)
  {
    hide U16, U32, EncodedRow, AllBytes, AllStorable, Patched, Zeros;
    var at, n := Offset(slots, i, types), |row| + s.padding;
    SlotReplaced(body, slots, i, s, types);
    PatchedTwice(body, at, U32(1 + n), [0]);
    PatchedTwice(body, at, U32(1 + n) + [0], row);
    PatchedTwice(body, at, U32(1 + n) + [0] + row, Zeros(s.padding));
    Associative(U32(1 + n) + [0], row, Zeros(s.padding));
  }

  /** What fits in a slot's place can be stored there. */
  lemma StorableInPlace(was: Slot, s: Slot, types: Types)
    requires Storable(was, types) && |s.values| == |types| && EncodedRow(s.values, types, s.rowid).Ok?
    requires |EncodedRow(s.values, types, s.rowid).value| + s.padding == |RowBytes(was, types)|
    ensures Storable(s, types)
  {
  }

  /** A slot written behind the others, under a count that is one higher. */
  lemma SlotAdded(body: seq<Byte>, slots: seq<Slot>, s: Slot, types: Types)
    requires Represents(body, slots, types) && Storable(s, types) && |slots| + 1 < U16_LIMIT
    ensures Represents(U16(|slots| + 1) + Slice(body, 2, |body|) + SlotBytes(s, types), slots + [s], types)
  {
    hide U16, U32, RowBytes, Storable, SlotBytes, Zeros;
    assert AllBytes([s], types) == SlotBytes(s, types);
    AllBytesConcat(slots, [s], types);
    assert Slice(body, 2, |body|) == AllBytes(slots, types);
    assert U16(|slots| + 1) + AllBytes(slots, types) + SlotBytes(s, types)
        == U16(|slots| + 1) + (AllBytes(slots, types) + SlotBytes(s, types));
  }

  /** The same with the bytes that `Heap.append` puts together. */
  lemma SlotAppended(body: seq<Byte>, slots: seq<Slot>, s: Slot, row: seq<Byte>, types: Types)
    requires Represents(body, slots, types) && |slots| + 1 < U16_LIMIT && |s.values| == |types|
    requires EncodedRow(s.values, types, s.rowid) == Ok(row) && s.alive && s.padding == 0 && 1 + |row| < U32_LIMIT
    ensures Represents(U16(|slots| + 1) + Slice(body, 2, |body|) + U32(1 + |row|) + [0] + row, slots + [s], types)
    ensures |U16(|slots| + 1) + Slice(body, 2, |body|) + U32(1 + |row|) + [0] + row| == Max(2, |body|) + 5 + |row|
  {
    hide U16, U32, EncodedRow, Represents, AllBytes;
    assert row + Zeros(0) == row;
    SlotAdded(body, slots, s, types);
    var front := U16(|slots| + 1) + Slice(body, 2, |body|);
    assert front + SlotBytes(s, types) == front + U32(1 + |row|) + [0] + row;
  }

  /** A body that is cut short is not the body of its slots any more. */
  lemma CutBody(body: seq<Byte>, slots: seq<Slot>, types: Types, room: nat)
    requires Represents(body, slots, types) && room >= 2
    ensures Represents(Slice(body, 0, room), slots, types) <==> |body| <= room
  {
    hide AllBytes, AllStorable, U16;
    assert |body| <= room ==> Slice(body, 0, room) == body;
  }

  /** A slot's row has its rowid and its values. */
  lemma SlotRow(s: Slot, types: Types)
    requires Storable(s, types)
    ensures DecodedRowid(RowBytes(s, types)) == Ok(s.rowid)
    ensures DecodedRow(RowBytes(s, types), types) == Ok(ReadBackAll(s.values))
  {
    RowSurvives(s.values, types, s.rowid, Zeros(s.padding));
  }

  lemma StartOfWalk(slots: seq<Slot>, types: Types)
    requires AllStorable(slots, types)
    ensures Offset(slots, 0, types) == 2 && Rows(slots[..0]) == []
  {
  }

  // ---- What the operations make of the slots

  /** The first slot with this rowid, dead or alive; the number of slots when there is none. */
  function FirstWith(slots: seq<Slot>, rowid: nat): (i: nat)
    ensures i <= |slots|
    ensures i < |slots| ==> slots[i].rowid == rowid
    ensures forall j :: 0 <= j < i ==> slots[j].rowid != rowid
  {
    if slots == [] || slots[0].rowid == rowid then 0 else 1 + FirstWith(slots[1..], rowid)
  }

  lemma IsFirst(slots: seq<Slot>, rowid: nat, i: nat)
    requires i < |slots| && slots[i].rowid == rowid && forall j :: 0 <= j < i ==> slots[j].rowid != rowid
    ensures FirstWith(slots, rowid) == i
  {
  }

  lemma NoFirst(slots: seq<Slot>, rowid: nat)
    requires forall j :: 0 <= j < |slots| ==> slots[j].rowid != rowid
    ensures FirstWith(slots, rowid) == |slots|
  {
  }

  function Appended(slots: seq<Slot>, values: seq<Value>): seq<Slot> {
    slots + [Slot(true, |slots| + 1, values, 0)]
  }

  function Deleted(slots: seq<Slot>, rowid: nat): seq<Slot> {
    var i := FirstWith(slots, rowid);
    if i == |slots| then slots else slots[i := slots[i].(alive := false)]
  }

  /** The new row fits in the place of the first slot with its rowid. */
  ghost predicate FitsInPlace(slots: seq<Slot>, rowid: nat, values: seq<Value>, types: Types)
    requires AllStorable(slots, types) && FirstWith(slots, rowid) < |slots| && EncodedRow(values, types, rowid).Ok?
  {
    |EncodedRow(values, types, rowid).value| <= |RowBytes(slots[FirstWith(slots, rowid)], types)|
  }

  ghost function Updated(slots: seq<Slot>, rowid: nat, values: seq<Value>, types: Types): seq<Slot>
    requires AllStorable(slots, types) && FirstWith(slots, rowid) < |slots| && EncodedRow(values, types, rowid).Ok?
  {
    var i := FirstWith(slots, rowid);
    var size := |EncodedRow(values, types, rowid).value|;
    if FitsInPlace(slots, rowid, values, types) then
      slots[i := Slot(true, rowid, values, |RowBytes(slots[i], types)| - size)]
    else
      slots[i := slots[i].(alive := false)] + [Slot(true, rowid, values, 0)]
  }

  // ---- What a scan returns

  function RowOf(s: Slot): seq<Row> {
    if s.alive then [Row(s.rowid, ReadBackAll(s.values))] else []
  }

  function Rows(slots: seq<Slot>): seq<Row> {
    if slots == [] then [] else RowOf(slots[0]) + Rows(slots[1..])
  }

  function Kept(row: Row, keep: bool): seq<Row> { if keep then [row] else [] }

  /** The rows that have another rowid, in their order. */
  function Others(rows: seq<Row>, rowid: nat): seq<Row> {
    if rows == [] then [] else Kept(rows[0], rows[0].rowid != rowid) + Others(rows[1..], rowid)
  }

  /** The rows that have this rowid, in their order. */
  function Versions(rows: seq<Row>, rowid: nat): seq<Row> {
    if rows == [] then [] else Kept(rows[0], rows[0].rowid == rowid) + Versions(rows[1..], rowid)
  }

  lemma {:induction false} RowsConcat(a: seq<Slot>, b: seq<Slot>)
    ensures Rows(a + b) == Rows(a) + Rows(b)
  {
    hide RowOf;
    if a == [] {
      assert a + b == b;
    } else {
      RowsConcat(a[1..], b);
      assert (a + b)[1..] == a[1..] + b;
      Associative(RowOf(a[0]), Rows(a[1..]), Rows(b));
    }
  }

  lemma {:induction false} OthersConcat(a: seq<Row>, b: seq<Row>, rowid: nat)
    ensures Others(a + b, rowid) == Others(a, rowid) + Others(b, rowid)
  {
    hide Kept;
    if a == [] {
      assert a + b == b;
    } else {
      OthersConcat(a[1..], b, rowid);
      assert (a + b)[1..] == a[1..] + b && (a + b)[0] == a[0];
      Associative(Kept(a[0], a[0].rowid != rowid), Others(a[1..], rowid), Others(b, rowid));
    }
  }

  lemma {:induction false} VersionsConcat(a: seq<Row>, b: seq<Row>, rowid: nat)
    ensures Versions(a + b, rowid) == Versions(a, rowid) + Versions(b, rowid)
  {
    hide Kept;
    if a == [] {
      assert a + b == b;
    } else {
      VersionsConcat(a[1..], b, rowid);
      assert (a + b)[1..] == a[1..] + b && (a + b)[0] == a[0];
      Associative(Kept(a[0], a[0].rowid == rowid), Versions(a[1..], rowid), Versions(b, rowid));
    }
  }

  lemma PartsConcat(a: seq<Row>, b: seq<Row>, rowid: nat)
    ensures Others(a + b, rowid) == Others(a, rowid) + Others(b, rowid)
    ensures Versions(a + b, rowid) == Versions(a, rowid) + Versions(b, rowid)
  {
    hide *;
    OthersConcat(a, b, rowid);
    VersionsConcat(a, b, rowid);
  }

  lemma RowsOfOne(s: Slot)
    ensures Rows([s]) == RowOf(s)
  {
  }

  lemma RowsAround(slots: seq<Slot>, i: nat)
    requires i < |slots|
    ensures Rows(slots) == Rows(slots[..i]) + RowOf(slots[i]) + Rows(slots[i + 1..])
  {
    hide *;
    var one := [slots[i]];
    RowsOfOne(slots[i]);
    RowsConcat(slots[..i], one);
    RowsConcat(slots[..i] + one, slots[i + 1..]);
    Around(slots, i);
  }

  lemma RowsStep(slots: seq<Slot>, i: nat)
    requires i < |slots|
    ensures Rows(slots[..i + 1]) == Rows(slots[..i]) + RowOf(slots[i])
  {
    hide *;
    assert slots[..i + 1] == slots[..i] + [slots[i]];
    RowsConcat(slots[..i], [slots[i]]);
    RowsOfOne(slots[i]);
  }

  lemma PartsAround(slots: seq<Slot>, i: nat, rowid: nat)
    requires i < |slots|
    ensures Others(Rows(slots), rowid)
         == Others(Rows(slots[..i]), rowid) + Others(RowOf(slots[i]), rowid) + Others(Rows(slots[i + 1..]), rowid)
    ensures Versions(Rows(slots), rowid)
         == Versions(Rows(slots[..i]), rowid) + Versions(RowOf(slots[i]), rowid) + Versions(Rows(slots[i + 1..]), rowid)
  {
    hide *;
    RowsAround(slots, i);
    PartsConcat(Rows(slots[..i]) + RowOf(slots[i]), Rows(slots[i + 1..]), rowid);
    PartsConcat(Rows(slots[..i]), RowOf(slots[i]), rowid);
  }

  lemma OneVersion(row: Row)
    ensures Others([row], row.rowid) == [] && Versions([row], row.rowid) == [row]
  {
  }

  lemma OneVersionNone(rowid: nat)
    ensures Others([], rowid) == [] && Versions([], rowid) == []
  {
  }

  /** An alive slot with this rowid behind the first slot with it. */
  ghost predicate LaterVersion(slots: seq<Slot>, rowid: nat) {
    exists j :: FirstWith(slots, rowid) < j < |slots| && slots[j].alive && slots[j].rowid == rowid
  }

  lemma {:induction false} NoVersions(slots: seq<Slot>, rowid: nat)
    ensures Versions(Rows(slots), rowid) == []
       <==> forall j :: 0 <= j < |slots| ==> !(slots[j].alive && slots[j].rowid == rowid)
    ensures (forall j :: 0 <= j < |slots| ==> slots[j].rowid != rowid) ==> Others(Rows(slots), rowid) == Rows(slots)
  {
    if slots != [] {
      NoVersions(slots[1..], rowid);
      PartsConcat(RowOf(slots[0]), Rows(slots[1..]), rowid);
      assert forall j :: 0 < j < |slots| ==> slots[j] == slots[1..][j - 1];
      assert forall j {:trigger slots[1..][j]} :: 0 <= j < |slots| - 1 ==> slots[1..][j] == slots[j + 1];
    }
  }

  lemma VersionsBehindFirst(slots: seq<Slot>, rowid: nat)
    requires FirstWith(slots, rowid) < |slots|
    ensures
      var i := FirstWith(slots, rowid);
      && Versions(Rows(slots[..i]), rowid) == []
      && (Versions(Rows(slots[i + 1..]), rowid) == [] <==> !LaterVersion(slots, rowid))
  {
    hide Rows, Versions, Others, FirstWith;
    var i := FirstWith(slots, rowid);
    NoVersions(slots[..i], rowid);
    NoVersions(slots[i + 1..], rowid);
    var tail := slots[i + 1..];
    assert forall j {:trigger tail[j]} :: 0 <= j < |tail| ==> tail[j] == slots[i + 1 + j];
    assert forall j {:trigger slots[j]} :: i < j < |slots| ==> slots[j] == tail[j - i - 1];
  }

  /**
    * Deleting leaves the other rows as they are. The row itself is gone from the next scan exactly when no
    * alive slot with its rowid comes after the first one.
    */
  lemma DeletedRow(slots: seq<Slot>, rowid: nat)
    ensures Others(Rows(Deleted(slots, rowid)), rowid) == Others(Rows(slots), rowid)
    ensures Versions(Rows(Deleted(slots, rowid)), rowid) == [] <==> !LaterVersion(slots, rowid)
  {
    hide Rows, FirstWith, Others, Versions;
    var i := FirstWith(slots, rowid);
    if i == |slots| {
      NoVersions(slots, rowid);
    } else {
      var slots' := Deleted(slots, rowid);
      var was := Row(rowid, ReadBackAll(slots[i].values));
      OneVersion(was);
      OneVersionNone(rowid);
      PartsAround(slots, i, rowid);
      PartsAround(slots', i, rowid);
      assert slots'[..i] == slots[..i] && slots'[i + 1..] == slots[i + 1..];
      VersionsBehindFirst(slots, rowid);
    }
  }

  /**
    * Updating leaves the other rows as they are. The next scan shows the row once, with its new values,
    * exactly when no alive slot with its rowid comes after the first one.
    */
  lemma UpdatedRow(slots: seq<Slot>, rowid: nat, values: seq<Value>, types: Types)
    requires AllStorable(slots, types) && FirstWith(slots, rowid) < |slots| && EncodedRow(values, types, rowid).Ok?
    ensures
      var rows := Rows(Updated(slots, rowid, values, types));
      && Others(rows, rowid) == Others(Rows(slots), rowid)
      && (Versions(rows, rowid) == [Row(rowid, ReadBackAll(values))] <==> !LaterVersion(slots, rowid))
  {
    hide Rows, FirstWith, RowBytes, EncodedRow, ReadBackAll, Others, Versions;
    var i := FirstWith(slots, rowid);
    var slots' := Updated(slots, rowid, values, types);
    var row := Row(rowid, ReadBackAll(values));
    PartsAround(slots, i, rowid);
    VersionsBehindFirst(slots, rowid);
    OneVersion(row);
    OneVersion(Row(rowid, ReadBackAll(slots[i].values)));
    OneVersionNone(rowid);
    if FitsInPlace(slots, rowid, values, types) {
      PartsAround(slots', i, rowid);
      assert slots'[..i] == slots[..i] && slots'[i + 1..] == slots[i + 1..];
      assert Versions(Rows(slots'), rowid) == [row] + Versions(Rows(slots[i + 1..]), rowid);
    } else {
      var dead := Deleted(slots, rowid);
      var last := [Slot(true, rowid, values, 0)];
      PartsAround(dead, i, rowid);
      assert dead[..i] == slots[..i] && dead[i + 1..] == slots[i + 1..];
      RowsConcat(dead, last);
      RowsOfOne(last[0]);
      PartsConcat(Rows(dead), [row], rowid);
      assert Versions(Rows(slots'), rowid) == Versions(Rows(slots[i + 1..]), rowid) + [row];
    }
  }

  /** The only slot with its rowid, and alive. */
  ghost predicate OnlyAt(slots: seq<Slot>, i: nat) {
    i < |slots| && slots[i].alive && forall j :: 0 <= j < |slots| && j != i ==> slots[j].rowid != slots[i].rowid
  }

  lemma OnlyIsFirst(slots: seq<Slot>, i: nat)
    requires OnlyAt(slots, i)
    ensures FirstWith(slots, slots[i].rowid) == i && !LaterVersion(slots, slots[i].rowid)
  {
  }

  /** A row with one slot: deleting it takes it out of the scan and moves nothing. */
  lemma DeletedInPlace(slots: seq<Slot>, i: nat)
    requires OnlyAt(slots, i)
    ensures Rows(slots) == Rows(slots[..i]) + [Row(slots[i].rowid, ReadBackAll(slots[i].values))] + Rows(slots[i + 1..])
    ensures Rows(Deleted(slots, slots[i].rowid)) == Rows(slots[..i]) + Rows(slots[i + 1..])
  {
    hide Rows, FirstWith;
    OnlyIsFirst(slots, i);
    var slots' := Deleted(slots, slots[i].rowid);
    RowsAround(slots, i);
    RowsAround(slots', i);
    assert slots'[..i] == slots[..i] && slots'[i + 1..] == slots[i + 1..];
  }

  /** A row with one slot: it keeps its place in the scan when the new row fits there, and comes last when not. */
  lemma UpdatedInPlaceOrMoved(slots: seq<Slot>, i: nat, values: seq<Value>, types: Types)
    requires AllStorable(slots, types) && OnlyAt(slots, i) && EncodedRow(values, types, slots[i].rowid).Ok?
    ensures FirstWith(slots, slots[i].rowid) == i
    ensures
      var row := Row(slots[i].rowid, ReadBackAll(values));
      Rows(Updated(slots, slots[i].rowid, values, types))
      == if FitsInPlace(slots, slots[i].rowid, values, types) then Rows(slots[..i]) + [row] + Rows(slots[i + 1..])
         else Rows(slots[..i]) + Rows(slots[i + 1..]) + [row]
  {
    hide Rows, FirstWith, RowBytes, EncodedRow, ReadBackAll;
    OnlyIsFirst(slots, i);
    var slots' := Updated(slots, slots[i].rowid, values, types);
    if FitsInPlace(slots, slots[i].rowid, values, types) {
      RowsAround(slots', i);
      assert slots'[..i] == slots[..i] && slots'[i + 1..] == slots[i + 1..];
    } else {
      var dead := Deleted(slots, slots[i].rowid);
      var last := Slot(true, slots[i].rowid, values, 0);
      DeletedInPlace(slots, i);
      RowsConcat(dead, [last]);
      RowsOfOne(last);
    }
  }

  /**
    * A row that was moved by an update and is then deleted stays: the deletion marks the slot that the
    * update had left dead.
    */
  lemma MovedRowSurvivesDelete(slots: seq<Slot>, rowid: nat, values: seq<Value>, types: Types)
    requires AllStorable(slots, types) && FirstWith(slots, rowid) < |slots| && EncodedRow(values, types, rowid).Ok?
    requires !FitsInPlace(slots, rowid, values, types)
    ensures
      var moved := Updated(slots, rowid, values, types);
      Deleted(moved, rowid) == moved && Row(rowid, ReadBackAll(values)) in Rows(moved)
  {
    hide Rows, FirstWith, RowBytes, EncodedRow, ReadBackAll;
    var i := FirstWith(slots, rowid);
    var moved := Updated(slots, rowid, values, types);
    assert moved[i] == slots[i].(alive := false);
    SameFirst(slots, moved, rowid);
    var last := Slot(true, rowid, values, 0);
    RowsConcat(moved[..|slots|], [last]);
    RowsOfOne(last);
    assert moved == moved[..|slots|] + [last];
  }

  lemma SameFirst(slots: seq<Slot>, slots': seq<Slot>, rowid: nat)
    requires |slots| <= |slots'| && FirstWith(slots, rowid) < |slots|
    requires forall j :: 0 <= j < |slots| ==> slots'[j].rowid == slots[j].rowid
    ensures FirstWith(slots', rowid) == FirstWith(slots, rowid)
  {
    var i, k := FirstWith(slots, rowid), FirstWith(slots', rowid);
    assert slots'[i].rowid == rowid;
  }

  // ---- What every operation keeps

  /** No slot's rowid is higher than its position, which keeps the next rowid unused. */
  ghost predicate RowidsBounded(slots: seq<Slot>) {
    forall i :: 0 <= i < |slots| ==> 1 <= slots[i].rowid <= i + 1
  }

  /** Rows that were never moved have a slot each. */
  ghost predicate NeverMoved(slots: seq<Slot>) {
    forall i :: 0 <= i < |slots| ==> slots[i].rowid == i + 1
  }

  lemma RowidsStayBounded(slots: seq<Slot>, rowid: nat, values: seq<Value>, types: Types)
    requires RowidsBounded(slots)
    ensures RowidsBounded(Appended(slots, values)) && RowidsBounded(Deleted(slots, rowid))
    ensures AllStorable(slots, types) && FirstWith(slots, rowid) < |slots| && EncodedRow(values, types, rowid).Ok? ==>
              RowidsBounded(Updated(slots, rowid, values, types))
  {
  }

  /** An appended row is new to the heap, above every rowid there, and last in the scan. */
  lemma AppendedRow(slots: seq<Slot>, values: seq<Value>)
    requires RowidsBounded(slots)
    ensures forall i :: 0 <= i < |slots| ==> slots[i].rowid < |slots| + 1
    ensures Rows(Appended(slots, values)) == Rows(slots) + [Row(|slots| + 1, ReadBackAll(values))]
  {
    var last := Slot(true, |slots| + 1, values, 0);
    RowsConcat(slots, [last]);
    RowsOfOne(last);
  }

  /** As long as every update fits in place, every alive row has one slot. */
  lemma NeverMovedStays(slots: seq<Slot>, rowid: nat, values: seq<Value>, types: Types)
    requires NeverMoved(slots)
    ensures NeverMoved(Appended(slots, values)) && NeverMoved(Deleted(slots, rowid))
    ensures AllStorable(slots, types) && FirstWith(slots, rowid) < |slots| && EncodedRow(values, types, rowid).Ok? ==>
              (NeverMoved(Updated(slots, rowid, values, types)) <==> FitsInPlace(slots, rowid, values, types))
    ensures forall i :: 0 <= i < |slots| && slots[i].alive ==> OnlyAt(slots, i)
  {
    if AllStorable(slots, types) && FirstWith(slots, rowid) < |slots| && EncodedRow(values, types, rowid).Ok? {
      var slots' := Updated(slots, rowid, values, types);
      if !FitsInPlace(slots, rowid, values, types) {
        assert slots'[|slots|].rowid == rowid <= |slots|;
      }
    }
  }
}
