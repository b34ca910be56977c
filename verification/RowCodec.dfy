/** Column values, the rows they make, and the bytes of a row. */
module RowCodec {
  import opened Bytes

  datatype ColumnType = IntType | FloatType | TextType | BoolType

  /** A float is its eight bytes and a text its UTF-8 bytes. */
  datatype Value =
    | Null
    | IntValue(n: int)
    | FloatValue(bits: seq<Byte>)
    | TextValue(utf8: seq<Byte>)
    | BoolValue(b: bool)

  datatype Error = TypeMismatch | IntegerOverflow | BadField

  datatype Result<+T> = Ok(value: T) | Err(error: Error)

  const TEXT_LIMIT: int := U32_LIMIT - 4

  /** The bytes of a value that is not NULL. */
  function EncodeValue(v: Value, t: ColumnType): (r: Result<seq<Byte>>)
    requires v != Null
    ensures r.Ok? ==> 0 < |r.value| < U32_LIMIT
  {
    match t
    case IntType =>
      if !v.IntValue? then Err(TypeMismatch) else if !IsI64(v.n) then Err(IntegerOverflow) else Ok(I64(v.n))
    case FloatType => if v.FloatValue? && |v.bits| == 8 then Ok(v.bits) else Err(TypeMismatch)
    case TextType =>
      if !v.TextValue? then Err(TypeMismatch)
      else if |v.utf8| >= TEXT_LIMIT then Err(BadField)
      else Ok(U32(|v.utf8|) + v.utf8)
    case BoolType => if v.BoolValue? then Ok([if v.b then 1 else 0]) else Err(TypeMismatch)
  }

  /** Eight zero bytes stand for NULL, whatever the column's type. */
  function DecodeValue(raw: seq<Byte>, t: ColumnType): Result<Value> {
    if raw == Zeros(8) then Ok(Null)
    else
      match t
      case IntType => Ok(IntValue(FromSignedLE(Slice(raw, 0, 8))))
      case FloatType => if |raw| < 8 then Err(BadField) else Ok(FloatValue(raw[..8]))
      case TextType => Ok(TextValue(Slice(raw, 4, 4 + FromLE(Slice(raw, 0, 4)))))
      case BoolType => if raw == [] then Err(BadField) else Ok(BoolValue(raw[0] != 0))
  }

  /** A value's field in a row: its length and its bytes, with length 0 for NULL. */
  function EncodeField(v: Value, t: ColumnType): (r: Result<seq<Byte>>)
    ensures r.Ok? ==> |r.value| >= 4
  {
    if v == Null then Ok(U32(0))
    else
      match EncodeValue(v, t)
      case Err(e) => Err(e)
      case Ok(b) => Ok(U32(|b|) + b)
  }

  function EncodeFields(values: seq<Value>, types: seq<ColumnType>): Result<seq<Byte>> {
    if values == [] || types == [] then Ok([])
    else
      match EncodeField(values[0], types[0])
      case Err(e) => Err(e)
      case Ok(b) =>
        match EncodeFields(values[1..], types[1..])
        case Err(e) => Err(e)
        case Ok(rest) => Ok(b + rest)
  }

  const ROW_HEADER_SIZE: int := 10

  function EncodedRow(values: seq<Value>, types: seq<ColumnType>, rowid: nat): (r: Result<seq<Byte>>)
    ensures r.Ok? ==> |r.value| >= ROW_HEADER_SIZE && rowid < U64_LIMIT && |types| < U16_LIMIT
  {
    if rowid >= U64_LIMIT || |types| >= U16_LIMIT then Err(BadField)
    else
      match EncodeFields(values, types)
      case Err(e) => Err(e)
      case Ok(b) => Ok(U64(rowid) + U16(|types|) + b)
  }

  /** The values of the fields at the start of `raw`; what follows them is not looked at. */
  function DecodeFields(raw: seq<Byte>, types: seq<ColumnType>): Result<seq<Value>>
    decreases types
  {
    if types == [] then Ok([])
    else if |raw| < 4 then Err(BadField)
    else
      var n := GetU32(raw[..4]);
      match if n == 0 then Ok(Null) else DecodeValue(Slice(raw, 4, 4 + n), types[0])
      case Err(e) => Err(e)
      case Ok(v) =>
        match DecodeFields(Slice(raw, 4 + n, |raw|), types[1..])
        case Err(e) => Err(e)
        case Ok(rest) => Ok([v] + rest)
  }

  function DecodedRow(raw: seq<Byte>, types: seq<ColumnType>): Result<seq<Value>> {
    DecodeFields(Slice(raw, ROW_HEADER_SIZE, |raw|), types)
  }

  function DecodedRowid(raw: seq<Byte>): Result<nat> {
    if |raw| < 8 then Err(BadField) else Ok(GetU64(raw[..8]))
  }

  /** What a stored value is read back as: the two values that are eight zero bytes become NULL. */
  function ReadBack(v: Value): Value {
    if v == IntValue(0) || v == FloatValue(Zeros(8)) then Null else v
  }

  function ReadBackAll(values: seq<Value>): (r: seq<Value>)
    ensures |r| == |values| && forall i :: 0 <= i < |r| ==> r[i] == ReadBack(values[i])
  {
    seq(|values|, i requires 0 <= i < |values| => ReadBack(values[i]))
  }

  // ---- Round trips

  lemma ZeroBytes(k: int)
    requires IsI64(k)
    ensures I64(k) == Zeros(8) <==> k == 0
  {
    assert U32(0) == Zeros(4);
    assert Zeros(8)[..4] == Zeros(4) && Zeros(8)[4..] == Zeros(4);
    assert GetI64(Zeros(8)) == 0;
    assert Zeros(4) + Zeros(4) == Zeros(8);
  }

  /** A text is never mistaken for NULL: four zero bytes of text have a length field that is not zero. */
  lemma TextValueSurvives(utf8: seq<Byte>)
    requires |utf8| < TEXT_LIMIT
    ensures DecodeValue(U32(|utf8|) + utf8, TextType) == Ok(TextValue(utf8))
  {
    var raw := U32(|utf8|) + utf8;
    assert raw[..4] == U32(|utf8|);
    assert |utf8| == 4 ==> raw[0] == 4;
    FromLEAt4(raw[..4]);
    assert Slice(raw, 0, 4) == raw[..4] && Slice(raw, 4, |raw|) == utf8;
  }

  /** Every value that can be stored in a column is read back as it was, INT 0 and FLOAT +0.0 as NULL. */
  lemma ValueSurvives(v: Value, t: ColumnType)
    requires v != Null && EncodeValue(v, t).Ok?
    ensures DecodeValue(EncodeValue(v, t).value, t) == Ok(ReadBack(v))
  {
    var raw := EncodeValue(v, t).value;
    match t
    case IntType =>
      ZeroBytes(v.n);
      SignedLEAt8(raw);
      assert Slice(raw, 0, 8) == raw;
    case FloatType =>
      assert raw[..8] == raw;
    case TextType =>
      TextValueSurvives(v.utf8);
    case BoolType =>
      assert |raw| != |Zeros(8)|;
  }

  /** A value of this kind and size can be stored in a column of this type. */
  predicate Fitting(v: Value, t: ColumnType) {
    match v
    case Null => true
    case IntValue(n) => t == IntType && -0x8000_0000_0000_0000 <= n <= 0x7fff_ffff_ffff_ffff
    case FloatValue(bits) => t == FloatType && |bits| == 8
    case TextValue(utf8) => t == TextType && |utf8| < 0xffff_fffc
    case BoolValue(_) => t == BoolType
  }

  /** Which values are accepted, how many bytes they take, and which error the others raise. */
  lemma FieldAccepted(v: Value, t: ColumnType)
    ensures EncodeField(v, t).Ok? <==> Fitting(v, t)
    ensures Fitting(v, t) ==>
              |EncodeField(v, t).value|
              == 4 + match v
                     case Null => 0
                     case IntValue(_) => 8
                     case FloatValue(_) => 8
                     case TextValue(utf8) => 4 + |utf8|
                     case BoolValue(_) => 1
    ensures v.IntValue? && t == IntType && !Fitting(v, t) ==> EncodeField(v, t) == Err(IntegerOverflow)
    ensures (v.IntValue? && t != IntType) || (v.BoolValue? && t != BoolType) || (v.TextValue? && t != TextType) ==>
              EncodeField(v, t) == Err(TypeMismatch)
  {
  }

  lemma {:induction false} FieldsAccepted(values: seq<Value>, types: seq<ColumnType>)
    requires |values| == |types|
    ensures EncodeFields(values, types).Ok? <==> forall i :: 0 <= i < |values| ==> Fitting(values[i], types[i])
    decreases |values|
  {
    hide EncodeField, Fitting;
    if values != [] {
      FieldAccepted(values[0], types[0]);
      FieldsAccepted(values[1..], types[1..]);
      assert forall i :: 0 < i < |values| ==> values[i] == values[1..][i - 1] && types[i] == types[1..][i - 1];
    }
  }

  /** A row can be stored exactly when each of its values fits its column, the rowid eight bytes and the columns two. */
  lemma RowAccepted(values: seq<Value>, types: seq<ColumnType>, rowid: nat)
    requires |values| == |types|
    ensures EncodedRow(values, types, rowid).Ok?
       <==> && rowid < 0x1_0000_0000_0000_0000 && |types| < 0x1_0000
            && forall i :: 0 <= i < |values| ==> Fitting(values[i], types[i])
  {
    hide EncodeFields, Fitting;
    FieldsAccepted(values, types);
  }

  /** One field, and where the next one starts. */
  lemma FieldSurvives(v: Value, t: ColumnType, after: seq<Byte>)
    requires EncodeField(v, t).Ok?
    ensures
      var field := EncodeField(v, t).value;
      var raw := field + after;
      var n := GetU32(raw[..4]);
      && Slice(raw, 4 + n, |raw|) == after
      && (if n == 0 then Ok(Null) else DecodeValue(Slice(raw, 4, 4 + n), t)) == Ok(ReadBack(v))
  {
    hide EncodeValue, DecodeValue, U32, GetU32;
    var field := EncodeField(v, t).value;
    var raw := field + after;
    var n := |field| - 4;
    assert raw[..4] == field[..4] == U32(n);
    assert Slice(raw, 4 + n, |raw|) == after;
    if v != Null {
      assert Slice(raw, 4, 4 + n) == EncodeValue(v, t).value;
      ValueSurvives(v, t);
    }
  }

  /** Fields decode to what they hold, whatever comes after them. */
  lemma {:induction false} FieldsSurvive(values: seq<Value>, types: seq<ColumnType>, after: seq<Byte>)
    requires |values| == |types| && EncodeFields(values, types).Ok?
    ensures DecodeFields(EncodeFields(values, types).value + after, types) == Ok(ReadBackAll(values))
    decreases |types|
  {
    hide EncodeField, DecodeValue, GetU32, Slice, ReadBack;
    if types == [] {
      assert ReadBackAll(values) == [];
    } else {
      var field := EncodeField(values[0], types[0]).value;
      var rest := EncodeFields(values[1..], types[1..]).value;
      FieldsSurvive(values[1..], types[1..], after);
      assert EncodeFields(values, types).value + after == field + (rest + after);
      FieldSurvives(values[0], types[0], rest + after);
      assert ReadBackAll(values) == [ReadBack(values[0])] + ReadBackAll(values[1..]);
    }
  }

  /** A stored row, with any padding behind it, has its rowid and reads back as its values, zeros as NULL. */
  lemma RowSurvives(values: seq<Value>, types: seq<ColumnType>, rowid: nat, padding: seq<Byte>)
    requires |values| == |types| && EncodedRow(values, types, rowid).Ok?
    ensures DecodedRow(EncodedRow(values, types, rowid).value + padding, types) == Ok(ReadBackAll(values))
    ensures DecodedRowid(EncodedRow(values, types, rowid).value + padding) == Ok(rowid)
  {
    hide EncodeFields, DecodeFields, U64, GetU64, U16;
    var fields := EncodeFields(values, types).value;
    var raw := EncodedRow(values, types, rowid).value + padding;
    assert raw[..8] == U64(rowid);
    assert Slice(raw, ROW_HEADER_SIZE, |raw|) == fields + padding;
    FieldsSurvive(values, types, padding);
  }

  /** A row comes back unchanged exactly when it holds no INT 0 and no FLOAT +0.0. */
  lemma RowUnchanged(values: seq<Value>, types: seq<ColumnType>, rowid: nat, padding: seq<Byte>)
    requires |values| == |types| && EncodedRow(values, types, rowid).Ok?
    ensures DecodedRow(EncodedRow(values, types, rowid).value + padding, types) == Ok(values)
       <==> forall i :: 0 <= i < |values| ==> values[i] != IntValue(0) && values[i] != FloatValue(Zeros(8))
  {
    hide EncodedRow, DecodedRow;
    RowSurvives(values, types, rowid, padding);
    forall i | 0 <= i < |values|
      ensures values[i] != IntValue(0) && values[i] != FloatValue(Zeros(8)) <==> ReadBackAll(values)[i] == values[i]
    {
    }
    if ReadBackAll(values) == values {
      forall i | 0 <= i < |values| ensures values[i] != IntValue(0) && values[i] != FloatValue(Zeros(8)) {
        assert ReadBackAll(values)[i] == values[i];
      }
    } else {
      assert exists i :: 0 <= i < |values| && ReadBackAll(values)[i] != values[i];
    }
  }

  // ---- The loops

  function Behind(done: seq<Byte>, rest: Result<seq<Byte>>): Result<seq<Byte>> {
    match rest case Err(e) => Err(e) case Ok(b) => Ok(done + b)
  }

  method EncodeRow(values: seq<Value>, types: seq<ColumnType>, rowid: nat) returns (r: Result<seq<Byte>>)
    ensures r == EncodedRow(values, types, rowid)
  {
    hide EncodeField;
    if rowid >= U64_LIMIT || |types| >= U16_LIMIT {
      return Err(BadField);
    }
    var fields: seq<Byte>, i := [], 0;
    assert forall b: seq<Byte> :: fields + b == b;
    assert values[0..] == values && types[0..] == types;
    while i < |values| && i < |types|
      invariant i <= |values| && i <= |types|
      invariant EncodeFields(values, types) == Behind(fields, EncodeFields(values[i..], types[i..]))
    {
      assert values[i..][1..] == values[i + 1..] && types[i..][1..] == types[i + 1..];
      var field := EncodeField(values[i], types[i]);
      if field.Err? {
        return Err(field.error);
      }
      ghost var rest := EncodeFields(values[i + 1..], types[i + 1..]);
      assert rest.Ok? ==> fields + (field.value + rest.value) == fields + field.value + rest.value;
      fields, i := fields + field.value, i + 1;
    }
    assert fields + [] == fields;
    r := Ok(U64(rowid) + U16(|types|) + fields);
  }

  function After(done: seq<Value>, rest: Result<seq<Value>>): Result<seq<Value>> {
    match rest case Err(e) => Err(e) case Ok(b) => Ok(done + b)
  }

  /** A field seen from the start of the row and from its own start. */
  lemma FieldAt(raw: seq<Byte>, offset: nat)
    ensures
      var left := Slice(raw, offset, |raw|);
      if |left| < 4 then |Slice(raw, offset, offset + 4)| < 4
      else
        var n := GetU32(left[..4]);
        && Slice(raw, offset, offset + 4) == left[..4]
        && Slice(raw, offset + 4, offset + 4 + n) == Slice(left, 4, 4 + n)
        && Slice(raw, offset + 4 + n, |raw|) == Slice(left, 4 + n, |left|)
  {
    hide GetU32;
    var left := Slice(raw, offset, |raw|);
    if |left| >= 4 {
      var n := GetU32(left[..4]);
      assert left == raw[offset..];
      assert Slice(raw, offset, offset + 4) == left[..4];
      if 4 + n <= |left| {
        assert raw[offset + 4..offset + 4 + n] == left[4..4 + n];
        assert raw[offset + 4 + n..] == left[4 + n..];
      } else {
        assert raw[offset + 4..] == left[4..];
      }
    }
  }

  method DecodeRow(raw: seq<Byte>, types: seq<ColumnType>) returns (r: Result<seq<Value>>)
    ensures r == DecodedRow(raw, types)
  {
    hide DecodeValue, GetU32, Slice;
    var values: seq<Value>, i, offset := [], 0, ROW_HEADER_SIZE;
    assert forall b: seq<Value> :: values + b == b;
    assert types[0..] == types;
    while i < |types|
      invariant i <= |types| && offset >= 0
      invariant DecodedRow(raw, types) == After(values, DecodeFields(Slice(raw, offset, |raw|), types[i..]))
    {
      assert types[i..][1..] == types[i + 1..];
      FieldAt(raw, offset);
      var lengthBytes := Slice(raw, offset, offset + 4);
      if |lengthBytes| < 4 {
        return Err(BadField);
      }
      var length := GetU32(lengthBytes);
      var v := Null;
      if length != 0 {
        var decoded := DecodeValue(Slice(raw, offset + 4, offset + 4 + length), types[i]);
        if decoded.Err? {
          return Err(decoded.error);
        }
        v := decoded.value;
      }
      ghost var rest := DecodeFields(Slice(raw, offset + 4 + length, |raw|), types[i + 1..]);
      assert rest.Ok? ==> values + ([v] + rest.value) == values + [v] + rest.value;
      values, i, offset := values + [v], i + 1, offset + 4 + length;
    }
    assert values + [] == values;
    r := Ok(values);
  }
}
