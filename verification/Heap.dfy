/** Rows in the body of one page: appending, scanning, deleting and updating by walking over the bytes. */
module HeapFile {
  import opened Bytes
  import opened Storage
  import opened RowCodec
  import opened HeapSlots
  import opened HeapScans

  /** The bytes at the heap's place in the file are a page with the body of `slots`. */
  ghost predicate PageHolds(raw: seq<Byte>, root: nat, slots: seq<Slot>, types: Types) {
    && |raw| >= FILE_HEADER_SIZE && ParsePage(raw).Some? && ParsePage(raw).value.pid == root
    && Represents(ParsePage(raw).value.body, slots, types)
  }

  ghost function BodyOf(raw: seq<Byte>): seq<Byte> {
    if |raw| >= FILE_HEADER_SIZE && ParsePage(raw).Some? then ParsePage(raw).value.body else []
  }

  /** A page that was read has room for its body, and its lsn has a field. */
  lemma ReadPageFits(raw: seq<Byte>)
    requires |raw| >= FILE_HEADER_SIZE && ParsePage(raw).Some?
    ensures |ParsePage(raw).value.body| <= |raw| - FILE_HEADER_SIZE && ParsePage(raw).value.lsn < U32_LIMIT
  {
  }

  /** A written page holds its slots exactly when its body has room. */
  lemma WrittenPageHolds(page: Page, slots: seq<Slot>, types: Types, pageSize: nat)
    requires Packable(page) && PageSizeOk(pageSize) && Represents(page.body, slots, types)
    ensures PageHolds(RawPage(page, pageSize), page.pid, slots, types) <==> |page.body| <= BodyRoom(pageSize)
    ensures BodyOf(RawPage(page, pageSize)) == Slice(page.body, 0, BodyRoom(pageSize))
  {
    hide RawPage, ParsePage, Represents;
    ParseOfRaw(page, pageSize);
    CutBody(page.body, slots, types, BodyRoom(pageSize));
  }

  /** Counting one more after the slot was added is the same as counting it first. */
  lemma CountPatched(body: seq<Byte>, start: nat, count: nat, row: seq<Byte>)
    requires 2 <= start && start + 5 <= |body| && count + 1 < U16_LIMIT && 1 + |row| < U32_LIMIT
    ensures
      var marked := Patched(body, start + 4, [1]);
      Patched(marked + (U32(1 + |row|) + [0] + row), 0, U16(count + 1))
      == U16(count + 1) + Slice(marked, 2, |marked|) + U32(1 + |row|) + [0] + row
  {
    hide U32, U16;
    var marked := Patched(body, start + 4, [1]);
    var tail := U32(1 + |row|) + [0] + row;
    assert (marked + tail)[2..] == marked[2..] + tail;
  }

  class Heap {
    const store: FileStore
    const root: nat
    const types: Types

    ghost predicate Usable()
      reads store
    {
      store.Valid() && 0 < root < store.pageCount && root !in store.freeList
    }

    ghost predicate Holds(slots: seq<Slot>)
      reads store
    {
      Usable() && PageHolds(store.pages[root], root, slots, types)
    }

    ghost function Body(): seq<Byte>
      requires Usable()
      reads store
    {
      BodyOf(store.pages[root])
    }

    constructor (store: FileStore, root: nat, types: Types)
      ensures this.store == store && this.root == root && this.types == types
    {
      this.store, this.root, this.types := store, root, types;
    }

    method ReadPage(ghost slots: seq<Slot>) returns (page: Page)
      requires Holds(slots)
      ensures page.pid == root && page.body == Body() && Represents(page.body, slots, types)
      ensures |page.body| <= BodyRoom(store.pageSize) && page.lsn < U32_LIMIT
    {
      hide FreeChain, ParsePage, Represents;
      ReadPageFits(store.pages[root]);
      var read := store.ReadPage(root);
      page := read.value;
    }

    /** Writing refuses a body whose length has no field to fit in, and cuts one that is longer than the page. */
    method WriteBody(page: Page, body: seq<Byte>, ghost slots: seq<Slot>) returns (ok: bool)
      requires Usable() && page.pid == root && page.lsn < U32_LIMIT && Represents(body, slots, types)
      modifies store`pages
      ensures Usable() && ok == (|body| < U16_LIMIT)
      ensures if ok then Holds(slots) <==> |body| <= BodyRoom(store.pageSize) else store.pages == old(store.pages)
      ensures ok ==> Body() == Slice(body, 0, BodyRoom(store.pageSize)) && ParsePage(store.pages[root]).Some?
      ensures store.pages == old(store.pages)[root := store.pages[root]]
    {
      hide FreeChain, ParsePage, RawPage, Represents;
      if |body| >= U16_LIMIT {
        return false;
      }
      var written := page.(body := body);
      store.WritePage(written);
      WrittenPageHolds(written, slots, types, store.pageSize);
      ok := true;
    }

    /** The number of slots; an empty body counts none. */
    method ReadCount(body: seq<Byte>, ghost slots: seq<Slot>) returns (count: nat)
      requires Represents(body, slots, types)
      ensures count == |slots| && (|body| < 2 <==> body == [])
    {
      hide AllBytes, AllStorable, U16, GetU16;
      if |body| < 2 {
        return 0;
      }
      assert body[..2] == U16(|slots|);
      count := GetU16(body[..2]);
    }

    /** The slot that the walk has come to. */
    method ReadSlot(body: seq<Byte>, offset: nat, ghost slots: seq<Slot>, ghost i: nat)
      returns (rowLen: nat, flag: Byte, rowData: seq<Byte>)
      requires Represents(body, slots, types) && i < |slots| && offset == Offset(slots, i, types)
      ensures rowLen == 1 + |RowBytes(slots[i], types)| && offset + 4 + rowLen == Offset(slots, i + 1, types) <= |body|
      ensures flag == (if slots[i].alive then 0 else 1) && rowData == RowBytes(slots[i], types)
      ensures DecodedRowid(rowData) == Ok(slots[i].rowid)
      ensures DecodedRow(rowData, types) == Ok(ReadBackAll(slots[i].values))
    {
      hide RowBytes, AllBytes, Offset, U32, GetU32, DecodedRow, DecodedRowid, U16;
      SlotAt(body, slots, i, types);
      SlotRow(slots[i], types);
      rowLen := GetU32(body[offset..offset + 4]);
      var rowBytes := Slice(body, offset + 4, offset + 4 + rowLen);
      flag, rowData := rowBytes[0], rowBytes[1..];
    }

    /** Appends a row under the next rowid. */
    method Append(values: seq<Value>, ghost slots: seq<Slot>) returns (r: Result<nat>)
      requires Holds(slots) && |values| == |types|
      modifies store`pages
      ensures Usable() && store.pages == old(store.pages)[root := store.pages[root]]
      ensures
        var row := EncodedRow(values, types, |slots| + 1);
        if row.Err? || |slots| + 1 >= U16_LIMIT || Max(2, |old(Body())|) + 5 + |row.value| >= U16_LIMIT then
          r.Err? && store.pages == old(store.pages)
        else
          && r == Ok(|slots| + 1)
          && var room := BodyRoom(store.pageSize) - Max(2, |old(Body())|);
             if 5 + |row.value| <= room then Holds(Appended(slots, values))
             else !Holds(Appended(slots, values)) && Scanned() == CutScan(Rows(slots), row.value, types, room)
    {
      hide PageHolds, EncodedRow, Represents, FreeChain, U16, U32, Scanned, CutScan, ParsePage, Rows, BodyOf;
      var page := ReadPage(slots);
      var count := ReadCount(page.body, slots);
      var rowid := count + 1;
      var row := EncodeRow(values, types, rowid);
      if row.Err? {
        return Err(row.error);
      }
      if 1 + |row.value| >= U32_LIMIT || count + 1 >= U16_LIMIT {
        return Err(BadField);
      }
      var body := U16(count + 1) + Slice(page.body, 2, |page.body|) + U32(1 + |row.value|) + [0] + row.value;
      SlotAppended(page.body, slots, Slot(true, rowid, values, 0), row.value, types);
      var ok := WriteBody(page, body, Appended(slots, values));
      r := if ok then Ok(rowid) else Err(BadField);
      if ok && |body| > BodyRoom(store.pageSize) {
        CutAppend(body, slots, Slot(true, rowid, values, 0), row.value);
      }
    }

    /** A body that was cut inside its last slot. */
    lemma CutAppend(body: seq<Byte>, slots: seq<Slot>, s: Slot, row: seq<Byte>)
      requires Usable() && ParsePage(store.pages[root]).Some? && Represents(body, slots + [s], types)
      requires s.alive && s.padding == 0 && EncodedRow(s.values, types, s.rowid) == Ok(row)
      requires |body| - 5 - |row| <= BodyRoom(store.pageSize) < |body|
      requires Body() == Slice(body, 0, BodyRoom(store.pageSize))
      ensures Scanned() == CutScan(Rows(slots), row, types, BodyRoom(store.pageSize) - (|body| - 5 - |row|))
    {
      hide Represents, ScannedBody, CutScan, Rows, FreeChain, ParsePage, EncodedRow, Offset;
      BodyCount(body, slots + [s], types);
      assert (slots + [s])[|slots|] == s;
      assert row + Zeros(0) == row;
      BodyEnds(body, slots + [s], s, types);
      ScanCut(body, slots, s, types, BodyRoom(store.pageSize));
    }

    /** What a scan of the page gives, whatever its bytes are. */
    ghost function Scanned(): Result<seq<Row>>
      requires Usable()
      reads store
    {
      match ParsePage(store.pages[root])
      case None => Err(BadField)
      case Some(p) => ScannedBody(p.body, types)
    }

    lemma ScannedSlots(slots: seq<Slot>)
      requires Holds(slots)
      ensures Scanned() == Ok(Rows(slots))
    {
      ScanWhole(Body(), slots, types);
    }

    /** The rows of the alive slots, in slot order. */
    method Scan() returns (r: Result<seq<Row>>)
      requires Usable()
      ensures r == Scanned()
      ensures forall slots :: Holds(slots) ==> r == Ok(Rows(slots))
    {
      hide PageHolds, Rows, ParsePage, ScannedBody, FreeChain;
      forall slots | Holds(slots) ensures Scanned() == Ok(Rows(slots)) {
        ScannedSlots(slots);
      }
      var page := store.ReadPage(root);
      if page.None? {
        return Err(BadField);
      }
      r := ScanBody(page.value.body);
    }

    /** The walk over a body, slot by slot. */
    method ScanBody(body: seq<Byte>) returns (r: Result<seq<Row>>)
      ensures r == ScannedBody(body, types)
    {
      hide GetU16, GetU32, SlotRows, Onto;
      var rows: seq<Row> := [];
      if |body| < 2 {
        return Ok(rows);
      }
      var count, offset: nat := GetU16(body[..2]), 2;
      OntoTwice([], [], Walk(body, 2, count, types));
      for i := 0 to count
        invariant Walk(body, 2, count, types) == Onto(Ok(rows), Walk(body, offset, count - i, types))
      {
        var length := Slice(body, offset, offset + 4);
        if |length| < 4 {
          OntoError(rows, BadField);
          return Err(BadField);
        }
        var n := GetU32(length);
        var slot := ReadSlotRow(Slice(body, offset + 4, offset + 4 + n));
        ghost var rest := Walk(body, offset + 4 + n, count - i - 1, types);
        if slot.Err? {
          ErrorOnto(slot.error, rest);
          OntoError(rows, slot.error);
          return Err(slot.error);
        }
        OntoTwice(rows, slot.value, rest);
        rows, offset := rows + slot.value, offset + 4 + n;
      }
      OntoNothing(Ok(rows));
      r := Ok(rows);
    }

    /** The row in one slot's bytes, if it is alive. */
    method ReadSlotRow(bytes: seq<Byte>) returns (r: Result<seq<Row>>)
      ensures r == SlotRows(bytes, types)
    {
      var deleted, rowBytes := Slice(bytes, 0, 1), Slice(bytes, 1, |bytes|);
      if deleted != [0] {
        return Ok([]);
      }
      assert rowBytes == bytes[1..];
      var rowid := DecodedRowid(rowBytes);
      if rowid.Err? {
        return Err(rowid.error);
      }
      var values := DecodeRow(rowBytes, types);
      r := if values.Ok? then Ok([Row(rowid.value, values.value)]) else Err(values.error);
    }

    /** Marks the first slot with this rowid as deleted; a body without a count does not unpack. */
    method Delete(rowid: nat, ghost slots: seq<Slot>) returns (ok: bool)
      requires Holds(slots)
      modifies store`pages
      ensures ok == (old(Body()) != []) && Holds(Deleted(slots, rowid))
      ensures store.pages == old(store.pages)[root := store.pages[root]]
    {
      hide PageHolds, FreeChain, RowBytes, DecodedRow, DecodedRowid, Offset, EncodedRow, Patched, FirstWith;
      var page := ReadPage(slots);
      var body := page.body;
      var count := ReadCount(body, slots);
      if |body| < 2 {
        return false;
      }
      var offset: nat, i := 2, 0;
      StartOfWalk(slots, types);
      while i < count
        invariant i <= count && offset == Offset(slots, i, types)
        invariant forall j :: 0 <= j < i ==> slots[j].rowid != rowid
        invariant store.pages == old(store.pages)
      {
        var rowLen, flag, rowData := ReadSlot(body, offset, slots, i);
        offset := offset + 4 + rowLen;
        if DecodedRowid(rowData) == Ok(rowid) {
          IsFirst(slots, rowid, i);
          SlotMarked(body, slots, i, types);
          body := Patched(body, offset - rowLen, [1]);
          ok := WriteBody(page, body, Deleted(slots, rowid));
          return;
        }
        i := i + 1;
      }
      NoFirst(slots, rowid);
      ok := true;
    }

    /** A shorter or equally long row goes in the old row's place, and the first slot with the rowid is alive again. */
    method Overwrite(page: Page, start: nat, rowLen: nat, row: seq<Byte>, ghost slots: seq<Slot>, ghost i: nat,
                     ghost s: Slot)
      requires Holds(slots) && page.pid == root && page.body == Body() && page.lsn < U32_LIMIT
      requires Represents(page.body, slots, types) && |page.body| <= BodyRoom(store.pageSize)
      requires i < |slots| && start == Offset(slots, i, types) && rowLen == 1 + |RowBytes(slots[i], types)|
      requires Storable(s, types) && s.alive && EncodedRow(s.values, types, s.rowid) == Ok(row)
      requires 1 + |row| + s.padding == rowLen
      modifies store`pages
      ensures Holds(slots[i := s]) && store.pages == old(store.pages)[root := store.pages[root]]
    {
      hide FreeChain, PageHolds, RowBytes, Offset, EncodedRow, Represents, Patched, U32, Storable;
      SlotOverwritten(page.body, slots, i, s, row, types);
      var body := Patched(page.body, start, U32(rowLen));
      body := Patched(body, start + 4, [0]);
      body := Patched(body, start + 5, row);
      var padStart, padEnd := start + 5 + |row|, start + 4 + rowLen;
      body := Patched(body, padStart, Zeros(padEnd - padStart));
      var ok := WriteBody(page, body, slots[i := s]);
    }

    /** A longer row is added as a new slot, and the first slot with the rowid is dead from then on. */
    method Move(page: Page, start: nat, count: nat, row: seq<Byte>, ghost slots: seq<Slot>, ghost i: nat, ghost s: Slot)
      returns (ok: bool)
      requires Holds(slots) && page.pid == root && page.body == Body() && page.lsn < U32_LIMIT
      requires Represents(page.body, slots, types) && |page.body| <= BodyRoom(store.pageSize)
      requires i < |slots| && start == Offset(slots, i, types) && count == |slots|
      requires |s.values| == |types| && s.alive && EncodedRow(s.values, types, s.rowid) == Ok(row) && s.padding == 0
      modifies store`pages
      ensures Usable() && store.pages == old(store.pages)[root := store.pages[root]]
      ensures ok == (count + 1 < U16_LIMIT && |old(Body())| + 5 + |row| < U16_LIMIT)
      ensures !ok ==> store.pages == old(store.pages)
      ensures ok ==>
                var marked, room := slots[i := slots[i].(alive := false)], BodyRoom(store.pageSize) - |old(Body())|;
                if 5 + |row| <= room then Holds(marked + [s])
                else !Holds(marked + [s]) && Scanned() == CutScan(Rows(marked), row, types, room)
    {
      hide FreeChain, PageHolds, RowBytes, Offset, EncodedRow, Represents, Patched, U32, U16, Storable;
      SlotMarked(page.body, slots, i, types);
      var body := Patched(page.body, start + 4, [1]);
      if 1 + |row| >= U32_LIMIT || count + 1 >= U16_LIMIT {
        return false;
      }
      SlotAppended(body, slots[i := slots[i].(alive := false)], s, row, types);
      body := body + (U32(1 + |row|) + [0] + row);
      CountPatched(page.body, start, count, row);
      body := Patched(body, 0, U16(count + 1));
      ok := WriteBody(page, body, slots[i := slots[i].(alive := false)] + [s]);
      if ok && |body| > BodyRoom(store.pageSize) {
        CutAppend(body, slots[i := slots[i].(alive := false)], s, row);
      }
    }

    /** Updates the first slot with this rowid; nothing is written when there is none. */
    method Update(rowid: nat, values: seq<Value>, ghost slots: seq<Slot>) returns (ok: bool)
      requires Holds(slots) && |values| == |types|
      modifies store`pages
      ensures Usable() && store.pages == old(store.pages)[root := store.pages[root]]
      ensures
        var row := EncodedRow(values, types, rowid);
        if old(Body()) == [] then !ok
        else if FirstWith(slots, rowid) == |slots| then ok && store.pages == old(store.pages)
        else if row.Err? then !ok
        else if FitsInPlace(slots, rowid, values, types) then ok && Holds(Updated(slots, rowid, values, types))
        else if |slots| + 1 >= U16_LIMIT || |old(Body())| + 5 + |row.value| >= U16_LIMIT then !ok
        else
          && ok
          && var room := BodyRoom(store.pageSize) - |old(Body())|;
             if 5 + |row.value| <= room then Holds(Updated(slots, rowid, values, types))
             else
               && !Holds(Updated(slots, rowid, values, types))
               && Scanned() == CutScan(Rows(Deleted(slots, rowid)), row.value, types, room)
      ensures !ok ==> store.pages == old(store.pages)
    {
      hide PageHolds, FreeChain, RowBytes, DecodedRow, DecodedRowid, Offset, EncodedRow, FirstWith;
      var page := ReadPage(slots);
      var count := ReadCount(page.body, slots);
      if |page.body| < 2 {
        return false;
      }
      var offset: nat, i := 2, 0;
      StartOfWalk(slots, types);
      while i < count
        invariant i <= count && offset == Offset(slots, i, types)
        invariant forall j :: 0 <= j < i ==> slots[j].rowid != rowid
        invariant store.pages == old(store.pages)
      {
        var rowLenOffset := offset;
        var rowLen, flag, rowData := ReadSlot(page.body, offset, slots, i);
        offset := offset + 4 + rowLen;
        if DecodedRowid(rowData) == Ok(rowid) {
          IsFirst(slots, rowid, i);
          var row := EncodeRow(values, types, rowid);
          if row.Err? {
            return false;
          }
          if |row.value| <= |rowData| {
            ghost var s := Slot(true, rowid, values, |rowData| - |row.value|);
            StorableInPlace(slots[i], s, types);
            Overwrite(page, rowLenOffset, rowLen, row.value, slots, i, s);
            ok := true;
          } else {
            ok := Move(page, rowLenOffset, count, row.value, slots, i, Slot(true, rowid, values, 0));
          }
          return;
        }
        i := i + 1;
      }
      NoFirst(slots, rowid);
      ok := true;
    }
  }
}
