/** What a scan makes of any page body, and of one whose last row was cut off. */
module HeapScans {
  import opened Bytes
  import opened RowCodec
  import opened HeapSlots

  function Onto<T>(first: Result<seq<T>>, rest: Result<seq<T>>): Result<seq<T>> {
    match first
    case Err(e) => Err(e)
    case Ok(a) => match rest case Err(e) => Err(e) case Ok(b) => Ok(a + b)
  }

  /** The row in the bytes of one slot, if its first byte says that it is alive. */
  function SlotRows(bytes: seq<Byte>, types: Types): Result<seq<Row>> {
    if bytes == [] || bytes[0] != 0 then Ok([])
    else
      match DecodedRowid(bytes[1..])
      case Err(e) => Err(e)
      case Ok(rowid) =>
        match DecodedRow(bytes[1..], types)
        case Err(e) => Err(e)
        case Ok(values) => Ok([Row(rowid, values)])
  }

  /** The rows of the next `count` slots. */
  function Walk(body: seq<Byte>, offset: nat, count: nat, types: Types): Result<seq<Row>>
    decreases count
  {
    if count == 0 then Ok([])
    else if |Slice(body, offset, offset + 4)| < 4 then Err(BadField)
    else
      var n := GetU32(Slice(body, offset, offset + 4));
      Onto(SlotRows(Slice(body, offset + 4, offset + 4 + n), types), Walk(body, offset + 4 + n, count - 1, types))
  }

  /** A body without a count has no rows. */
  function ScannedBody(body: seq<Byte>, types: Types): Result<seq<Row>> {
    if |body| < 2 then Ok([]) else Walk(body, 2, GetU16(body[..2]), types)
  }

  /** What is left of a scan when only `room` bytes of the last slot, with this row, are there. */
  function CutScan(rows: seq<Row>, row: seq<Byte>, types: Types, room: nat): Result<seq<Row>> {
    if room < 4 then Err(BadField) else Onto(Ok(rows), SlotRows(Slice([0] + row, 0, room - 4), types))
  }

  lemma OntoTwice<T>(a: seq<T>, b: seq<T>, rest: Result<seq<T>>)
    ensures Onto(Ok(a), Onto(Ok(b), rest)) == Onto(Ok(a + b), rest)
    ensures Onto(Ok([]), rest) == rest
  {
    if rest.Ok? {
      Associative(a, b, rest.value);
      assert [] + rest.value == rest.value;
    }
  }

  /** A slot that is there whole gives its row, and the walk goes on behind it. */
  lemma WalkStep(body: seq<Byte>, slots: seq<Slot>, i: nat, types: Types, room: nat, count: nat)
    requires Represents(body, slots, types) && AllStorable(slots, types) && i < |slots| && count > 0
    requires Offset(slots, i + 1, types) <= room <= |body|
    ensures Walk(body[..room], Offset(slots, i, types), count, types)
         == Onto(Ok(RowOf(slots[i])), Walk(body[..room], Offset(slots, i + 1, types), count - 1, types))
  {
    hide Represents, RowBytes, Offset, U32, GetU32, U16, AllBytes, DecodedRow, DecodedRowid, Walk, Storable;
    RepresentsBounds(body, slots, i, types);
    var cut, at, raw := body[..room], Offset(slots, i, types), RowBytes(slots[i], types);
    SlotAt(body, slots, i, types);
    SlotRow(slots[i], types);
    assert cut[at..at + 4] == body[at..at + 4] == U32(1 + |raw|);
    assert cut[at + 4..at + 5 + |raw|] == body[at + 4..at + 5 + |raw|];
    assert ([if slots[i].alive then 0 else 1] + raw)[1..] == raw;
    WalkOne(cut, at, count, types);
  }

  lemma WalkOne(body: seq<Byte>, offset: nat, count: nat, types: Types)
    requires count > 0 && offset + 4 <= |body|
    ensures
      var n := GetU32(body[offset..offset + 4]);
      Walk(body, offset, count, types)
      == Onto(SlotRows(Slice(body, offset + 4, offset + 4 + n), types), Walk(body, offset + 4 + n, count - 1, types))
  {
    hide GetU32, SlotRows, Onto;
  }

  lemma RepresentsBounds(body: seq<Byte>, slots: seq<Slot>, i: nat, types: Types)
    requires Represents(body, slots, types) && i < |slots|
    ensures Storable(slots[i], types) && 1 + |RowBytes(slots[i], types)| < U32_LIMIT
  {
    hide EncodedRow;
  }

  /** The walk from slot `i` on up to slot `n`, all of them there whole. */
  lemma {:induction false} WalkTo(body: seq<Byte>, slots: seq<Slot>, i: nat, n: nat, types: Types, room: nat)
    requires Represents(body, slots, types) && AllStorable(slots, types) && i <= n <= |slots|
    requires Offset(slots, n, types) <= room <= |body|
    ensures Walk(body[..room], Offset(slots, i, types), |slots| - i, types)
         == Onto(Ok(Rows(slots[i..n])), Walk(body[..room], Offset(slots, n, types), |slots| - n, types))
    decreases n - i
  {
    hide Represents, Offset, Walk, RowOf, Onto;
    OntoTwice([], [], Walk(body[..room], Offset(slots, n, types), |slots| - n, types));
    if i == n {
      assert slots[i..n] == [];
    } else {
      OffsetGrows(slots, i + 1, n, types);
      WalkStep(body, slots, i, types, room, |slots| - i);
      WalkTo(body, slots, i + 1, n, types, room);
      assert slots[i..n][0] == slots[i] && slots[i..n][1..] == slots[i + 1..n];
      OntoTwice(RowOf(slots[i]), Rows(slots[i + 1..n]),
                Walk(body[..room], Offset(slots, n, types), |slots| - n, types));
    }
  }

  lemma OffsetGrows(slots: seq<Slot>, i: nat, n: nat, types: Types)
    requires AllStorable(slots, types) && i <= n <= |slots|
    ensures Offset(slots, i, types) <= Offset(slots, n, types)
  {
    hide Storable, SlotBytes;
    assert slots[..n] == slots[..i] + slots[i..n];
    AllBytesConcat(slots[..i], slots[i..n], types);
  }

  lemma BodyCount(body: seq<Byte>, slots: seq<Slot>, types: Types)
    requires Represents(body, slots, types)
    ensures AllStorable(slots, types)
    ensures body != [] ==> |body| >= 2 && GetU16(body[..2]) == |slots| && |body| == Offset(slots, |slots|, types)
    ensures body == [] ==> slots == []
  {
    hide AllBytes, AllStorable, U16, GetU16;
    assert slots[..|slots|] == slots;
    assert body != [] ==> body[..2] == U16(|slots|);
  }

  /** A scan of a body that is there whole gives the rows of its slots. */
  lemma ScanWhole(body: seq<Byte>, slots: seq<Slot>, types: Types)
    requires Represents(body, slots, types)
    ensures ScannedBody(body, types) == Ok(Rows(slots))
  {
    BodyCount(body, slots, types);
    hide Represents, Offset, GetU16, RowOf, AllStorable;
    if body != [] {
      StartOfWalk(slots, types);
      WalkTo(body, slots, 0, |slots|, types, |body|);
      assert body[..|body|] == body && slots[0..|slots|] == slots;
      assert Rows(slots) + [] == Rows(slots);
    }
  }

  /**
    * A scan of a body that was cut inside its last slot, an alive one: the rows before it stay; the last one makes
    * the scan raise, is skipped when the cut is right behind its length, or is read from the bytes that are left.
    */
  lemma ScanCut(body: seq<Byte>, slots: seq<Slot>, s: Slot, types: Types, room: nat)
    requires Represents(body, slots + [s], types) && s.alive && AllStorable(slots + [s], types) && Storable(s, types)
    requires Offset(slots + [s], |slots|, types) <= room < |body|
    ensures ScannedBody(body[..room], types)
         == CutScan(Rows(slots), RowBytes(s, types), types, room - Offset(slots + [s], |slots|, types))
  {
    hide Represents, Offset, U16, U32, RowBytes, AllBytes, AllStorable, Storable, Rows, Walk, SlotRows, ScannedBody;
    var all, n := slots + [s], |slots|;
    assert all[n] == s && all[0..n] == slots;
    WalkBefore(body, all, types, room);
    SlotAt(body, all, n, types);
    RepresentsBounds(body, all, n, types);
    BodyEnds(body, all, s, types);
    WalkCutSlot(body, Offset(all, n, types), RowBytes(s, types), types, room);
    if room - Offset(all, n, types) >= 4 {
      OntoNothing(SlotRows(Slice([0] + RowBytes(s, types), 0, room - Offset(all, n, types) - 4), types));
    }
  }

  lemma WalkBefore(body: seq<Byte>, slots: seq<Slot>, types: Types, room: nat)
    requires Represents(body, slots, types) && AllStorable(slots, types) && slots != []
    requires Offset(slots, |slots| - 1, types) <= room <= |body|
    ensures ScannedBody(body[..room], types)
         == Onto(Ok(Rows(slots[0..|slots| - 1])), Walk(body[..room], Offset(slots, |slots| - 1, types), 1, types))
  {
    hide Represents, Offset, GetU16, AllBytes, AllStorable, Storable, Rows, Walk;
    BodyCount(body, slots, types);
    StartOfWalk(slots, types);
    WalkTo(body, slots, 0, |slots| - 1, types, room);
    OffsetGrows(slots, 0, |slots| - 1, types);
    assert body[..room][..2] == body[..2];
  }

  lemma OntoError<T>(a: seq<T>, e: Error)
    ensures Onto(Ok(a), Err(e)) == Err(e)
  {
  }

  lemma ErrorOnto<T>(e: Error, rest: Result<seq<T>>)
    ensures Onto(Err(e), rest) == Err(e)
  {
  }

  lemma OntoNothing<T>(r: Result<seq<T>>)
    ensures Onto(r, Ok([])) == r
  {
    assert r.Ok? ==> r.value + [] == r.value;
  }

  lemma BodyEnds(body: seq<Byte>, slots: seq<Slot>, s: Slot, types: Types)
    requires Represents(body, slots, types) && slots != [] && slots[|slots| - 1] == s && Storable(s, types)
    requires AllStorable(slots, types)
    ensures |body| == Offset(slots, |slots| - 1, types) + 5 + |RowBytes(s, types)|
  {
    hide U16, U32, RowBytes, Storable;
    SlotAt(body, slots, |slots| - 1, types);
    BodyCount(body, slots, types);
  }

  lemma WalkCutSlot(body: seq<Byte>, at: nat, raw: seq<Byte>, types: Types, room: nat)
    requires at + 5 + |raw| == |body| && at <= room < |body| && 1 + |raw| < U32_LIMIT
    requires body[at..at + 4] == U32(1 + |raw|) && body[at + 4..at + 5 + |raw|] == [0] + raw
    ensures Walk(body[..room], at, 1, types)
         == if room - at < 4 then Err(BadField) else Onto(SlotRows(Slice([0] + raw, 0, room - at - 4), types), Ok([]))
  {
    hide U32, GetU32, SlotRows;
    var cut := body[..room];
    if room - at >= 4 {
      assert cut[at..at + 4] == body[at..at + 4];
      WalkOne(cut, at, 1, types);
      assert Slice(cut, at + 4, at + 4 + (1 + |raw|)) == Slice([0] + raw, 0, room - at - 4);
    }
  }

  // ---- what is left of a row

  /**
    * What fields decode to of which only `p` is left: all values but the last, and that one from what is left of its
    * bytes.
    */
  function FieldsLeft(values: seq<Value>, types: Types, p: seq<Byte>): Result<seq<Value>>
    requires |values| == |types| > 0 && EncodeFields(values[..|types| - 1], types[..|types| - 1]).Ok?
  {
    var n := |types| - 1;
    var at := |EncodeFields(values[..n], types[..n]).value| + 4;
    if |p| < at then Err(BadField)
    else match DecodeValue(p[at..], types[n]) case Err(e) => Err(e) case Ok(v) => Ok(ReadBackAll(values[..n]) + [v])
  }

  /**
    * Fields that are cut off decode only when the cut is in the last value's bytes, as far as those decode by
    * themselves.
    */
  lemma {:induction false} FieldsCut(values: seq<Value>, types: Types, p: seq<Byte>)
    requires |values| == |types| > 0 && EncodeFields(values, types).Ok? && p < EncodeFields(values, types).value
    ensures EncodeFields(values[..|types| - 1], types[..|types| - 1]).Ok?
    ensures DecodeFields(p, types) == FieldsLeft(values, types, p)
    decreases |types|
  {
    PrefixFields(values, types, |types| - 1);
    var field, rest := EncodeField(values[0], types[0]).value, EncodeFields(values[1..], types[1..]).value;
    assert EncodeFields(values, types).value == field + rest;
    hide EncodeField, DecodeFields, FieldsLeft;
    if |types| == 1 {
      assert values[1..] == [] && rest == [] && field + rest == field;
      LastFieldCut(values[0], types, p);
      OneFieldLeft(values, types, p);
    } else if |field| <= |p| {
      var p' := p[|field|..];
      assert p == field + p' && p' == rest[..|p'|];
      FieldsCut(values[1..], types[1..], p');
      DecodeStep(values[0], types, p');
      LeftStep(values, types, p');
    } else {
      assert p == field[..|p|];
      FirstFieldCut(values[0], types, p);
      LeftTooShort(values, types, p);
    }
  }

  lemma OneFieldLeft(values: seq<Value>, types: Types, p: seq<Byte>)
    requires |values| == |types| == 1 && EncodeFields(values[..0], types[..0]).Ok?
    ensures FieldsLeft(values, types, p)
         == if |p| < 4 then Err(BadField)
            else match DecodeValue(p[4..], types[0]) case Err(e) => Err(e) case Ok(w) => Ok([w])
  {
    hide DecodeValue;
    assert values[..0] == [] && types[..0] == [] && ReadBackAll(values[..0]) == [];
    assert forall w: Value :: [] + [w] == [w];
  }

  lemma DecodeStep(v: Value, types: Types, rest: seq<Byte>)
    requires types != [] && EncodeField(v, types[0]).Ok?
    ensures DecodeFields(EncodeField(v, types[0]).value + rest, types)
         == Onto(Ok([ReadBack(v)]), DecodeFields(rest, types[1..]))
  {
    hide EncodeField, DecodeValue, GetU32, ReadBack;
    FieldSurvives(v, types[0], rest);
  }

  lemma LeftStep(values: seq<Value>, types: Types, rest: seq<Byte>)
    requires |values| == |types| > 1 && EncodeFields(values, types).Ok?
    requires EncodeFields(values[..|types| - 1], types[..|types| - 1]).Ok?
    requires EncodeFields(values[1..][..|types| - 2], types[1..][..|types| - 2]).Ok?
    requires EncodeField(values[0], types[0]).Ok?
    ensures FieldsLeft(values, types, EncodeField(values[0], types[0]).value + rest)
         == Onto(Ok([ReadBack(values[0])]), FieldsLeft(values[1..], types[1..], rest))
  {
    hide EncodeField, DecodeValue, ReadBack, EncodeFields;
    FrontFields(values, types);
    var n, field := |types| - 1, EncodeField(values[0], types[0]).value;
    var at := |EncodeFields(values[1..][..n - 1], types[1..][..n - 1]).value| + 4;
    assert |rest| >= at ==> (field + rest)[|field| + at..] == rest[at..];
    var front := ReadBackAll(values[1..][..n - 1]);
    assert ReadBackAll(values[..n]) == [ReadBack(values[0])] + front;
    assert forall v :: [ReadBack(values[0])] + (front + [v]) == [ReadBack(values[0])] + front + [v];
  }

  lemma LeftTooShort(values: seq<Value>, types: Types, p: seq<Byte>)
    requires |values| == |types| > 1 && EncodeFields(values, types).Ok?
    requires EncodeFields(values[..|types| - 1], types[..|types| - 1]).Ok?
    requires |p| < |EncodeField(values[0], types[0]).value|
    ensures FieldsLeft(values, types, p) == Err(BadField)
  {
    hide EncodeField, DecodeValue, ReadBackAll;
    PrefixFields(values[1..], types[1..], |types| - 2);
    FrontFields(values, types);
  }

  lemma {:induction false} PrefixFields(values: seq<Value>, types: Types, k: nat)
    requires |values| == |types| >= k && EncodeFields(values, types).Ok?
    ensures EncodeFields(values[..k], types[..k]).Ok?
    decreases k
  {
    hide EncodeField;
    if k > 0 {
      PrefixFields(values[1..], types[1..], k - 1);
      assert values[..k][1..] == values[1..][..k - 1] && types[..k][1..] == types[1..][..k - 1];
    }
  }

  lemma FrontFields(values: seq<Value>, types: Types)
    requires |values| == |types| > 1 && EncodeFields(values, types).Ok?
    requires EncodeFields(values[1..][..|types| - 2], types[1..][..|types| - 2]).Ok?
    ensures
      var n := |types| - 1;
      EncodeFields(values[..n], types[..n])
      == Ok(EncodeField(values[0], types[0]).value + EncodeFields(values[1..][..n - 1], types[1..][..n - 1]).value)
  {
    hide EncodeField;
    var n := |types| - 1;
    assert values[..n][0] == values[0] && types[..n][0] == types[0];
    assert values[..n][1..] == values[1..][..n - 1] && types[..n][1..] == types[1..][..n - 1];
  }

  /** A field that is cut off: its length says how long it was, and nothing is left behind it. */
  lemma FieldCut(v: Value, t: ColumnType, p: seq<Byte>)
    requires EncodeField(v, t).Ok? && p < EncodeField(v, t).value
    ensures |p| >= 4 ==> GetU32(p[..4]) == |EncodeField(v, t).value| - 4 > 0
    ensures |p| >= 4 ==>
              Slice(p, 4, |EncodeField(v, t).value|) == p[4..] && Slice(p, |EncodeField(v, t).value|, |p|) == []
  {
    hide EncodeValue, U32, GetU32;
    var field := EncodeField(v, t).value;
    assert field[..4] == U32(|field| - 4);
    assert |p| >= 4 ==> p[..4] == field[..4];
  }

  lemma DecodeError(raw: seq<Byte>, t: ColumnType)
    ensures DecodeValue(raw, t).Err? ==> DecodeValue(raw, t) == Err(BadField)
  {
  }

  lemma LastFieldCut(v: Value, types: Types, p: seq<Byte>)
    requires |types| == 1 && EncodeField(v, types[0]).Ok? && p < EncodeField(v, types[0]).value
    ensures DecodeFields(p, types)
         == if |p| < 4 then Err(BadField)
            else match DecodeValue(p[4..], types[0]) case Err(e) => Err(e) case Ok(w) => Ok([w])
  {
    hide EncodeField, DecodeValue, GetU32;
    FieldCut(v, types[0], p);
    assert types[1..] == [] && DecodeFields([], types[1..]) == Ok([]);
    if |p| >= 4 {
      var n := GetU32(p[..4]);
      assert Slice(p, 4, 4 + n) == p[4..] && Slice(p, 4 + n, |p|) == [];
      var w := DecodeValue(p[4..], types[0]);
      assert w.Ok? ==> [w.value] + [] == [w.value];
    }
  }

  lemma FirstFieldCut(v: Value, types: Types, p: seq<Byte>)
    requires |types| > 1 && EncodeField(v, types[0]).Ok? && p < EncodeField(v, types[0]).value
    ensures DecodeFields(p, types) == Err(BadField)
  {
    hide EncodeField, DecodeValue, GetU32;
    FieldCut(v, types[0], p);
    DecodeError(p[if |p| < 4 then |p| else 4..], types[0]);
    assert DecodeFields([], types[1..]) == Err(BadField);
  }

  /**
    * A row that is cut off is read only when the cut is in the last value's bytes and they still decode: then it
    * has its rowid and all other values.
    */
  lemma RowCut(values: seq<Value>, types: Types, rowid: nat, p: seq<Byte>)
    requires |values| == |types| > 0 && EncodedRow(values, types, rowid).Ok?
    requires p < EncodedRow(values, types, rowid).value
    ensures EncodeFields(values[..|types| - 1], types[..|types| - 1]).Ok?
    ensures SlotRows([0] + p, types)
         == if |p| < ROW_HEADER_SIZE then Err(BadField)
            else match FieldsLeft(values, types, p[ROW_HEADER_SIZE..])
                 case Err(e) => Err(e)
                 case Ok(vs) => Ok([Row(rowid, vs)])
  {
    hide EncodeFields, DecodeFields, U64, GetU64, U16, FieldsLeft;
    var row, fields := EncodedRow(values, types, rowid).value, EncodeFields(values, types).value;
    assert ([0] + p)[1..] == p;
    var q := Slice(p, ROW_HEADER_SIZE, |p|);
    assert row[ROW_HEADER_SIZE..] == fields && row[..8] == U64(rowid);
    HasFields(values, types);
    if |p| >= ROW_HEADER_SIZE {
      assert q == fields[..|q|];
      assert p == row[..|p|] && p[..8] == row[..8] && p[ROW_HEADER_SIZE..] == q;
      FieldsCut(values, types, q);
    } else {
      assert q == [] == fields[..0];
      FieldsCut(values, types, q);
      NothingDecodes(types);
    }
  }

  lemma NothingDecodes(types: Types)
    requires types != []
    ensures DecodeFields([], types) == Err(BadField)
  {
  }

  lemma HasFields(values: seq<Value>, types: Types)
    requires |values| == |types| > 0 && EncodeFields(values, types).Ok?
    ensures |EncodeFields(values, types).value| > 0
  {
    hide EncodeField;
  }

  /** What a cut last value is read back as: a text shortened, an integer from its low bytes, and no other value. */
  lemma LastValueCut(v: Value, t: ColumnType, q: seq<Byte>)
    requires v != Null && EncodeValue(v, t).Ok? && q < EncodeValue(v, t).value
    ensures t == TextType ==> DecodeValue(q, t) == Ok(TextValue(v.utf8[..Max(0, |q| - 4)]))
    ensures t == IntType ==> DecodeValue(q, t) == Ok(IntValue(FromSignedLE(q)))
    ensures t in {FloatType, BoolType} ==> DecodeValue(q, t) == Err(BadField)
  {
    hide U32, FromSignedLE, FromLE, I64;
    match t
    case TextType =>
      var raw := U32(|v.utf8|) + v.utf8;
      if |q| >= 4 {
        assert q[..4] == raw[..4] == U32(|v.utf8|);
        FromLEAt4(q[..4]);
        assert Slice(q, 0, 4) == q[..4];
        assert Slice(q, 4, 4 + |v.utf8|) == q[4..] == v.utf8[..|q| - 4];
        assert FromLE(Zeros(8)[..4]) == 0 by {
          assert Zeros(8)[..4] == U32(0);
          FromLEAt4(U32(0));
        }
      } else {
        assert Slice(q, 4, 4 + FromLE(Slice(q, 0, 4))) == [];
      }
    case IntType =>
      assert |q| < 8 && Slice(q, 0, 8) == q;
    case FloatType =>
    case BoolType =>
  }
}
