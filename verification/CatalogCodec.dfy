/** The table list as bytes. */
module CatalogCodec {
  import opened Bytes
  import RowCodec

  type Name = seq<Byte>

  /** Names are their UTF-8 bytes. */
  datatype Column = Column(name: Name, colType: RowCodec.ColumnType)

  datatype TableMeta = TableMeta(name: Name, root: nat, schema: seq<Column>)

  /** INT, FLOAT, TEXT and BOOL. */
  function TypeName(t: RowCodec.ColumnType): (s: Name)
    ensures |s| <= 5
  {
    match t
    case IntType => [73, 78, 84]
    case FloatType => [70, 76, 79, 65, 84]
    case TextType => [84, 69, 88, 84]
    case BoolType => [66, 79, 79, 76]
  }

  function TypeNamed(s: Name): Option<RowCodec.ColumnType> {
    if s == [73, 78, 84] then Some(RowCodec.IntType)
    else if s == [70, 76, 79, 65, 84] then Some(RowCodec.FloatType)
    else if s == [84, 69, 88, 84] then Some(RowCodec.TextType)
    else if s == [66, 79, 79, 76] then Some(RowCodec.BoolType)
    else None
  }

  /** What the fixed-width fields can hold. */
  predicate ColumnFits(c: Column) { |c.name| < U16_LIMIT }

  predicate TableFits(t: TableMeta) {
    |t.name| < U16_LIMIT && t.root < U32_LIMIT && |t.schema| < U16_LIMIT
    && forall i :: 0 <= i < |t.schema| ==> ColumnFits(t.schema[i])
  }

  predicate CatalogFits(entries: seq<TableMeta>) {
    |entries| < U16_LIMIT && forall i :: 0 <= i < |entries| ==> TableFits(entries[i])
  }

  // ---- Encoding

  function EncodeName(s: Name): (b: seq<Byte>)
    requires |s| < U16_LIMIT
  {
    U16(|s|) + s
  }

  function EncodeColumn(c: Column): seq<Byte>
    requires ColumnFits(c)
  {
    EncodeName(c.name) + EncodeName(TypeName(c.colType))
  }

  function EncodeColumns(cs: seq<Column>): seq<Byte>
    requires forall i :: 0 <= i < |cs| ==> ColumnFits(cs[i])
  {
    if cs == [] then [] else EncodeColumn(cs[0]) + EncodeColumns(cs[1..])
  }

  function EncodeTable(t: TableMeta): seq<Byte>
    requires TableFits(t)
  {
    EncodeName(t.name) + (U32(t.root) + (U16(|t.schema|) + EncodeColumns(t.schema)))
  }

  function EncodeTables(ts: seq<TableMeta>): seq<Byte>
    requires forall i :: 0 <= i < |ts| ==> TableFits(ts[i])
  {
    if ts == [] then [] else EncodeTable(ts[0]) + EncodeTables(ts[1..])
  }

  function EncodeCatalog(entries: seq<TableMeta>): (raw: seq<Byte>)
    requires CatalogFits(entries)
    ensures |raw| >= 2
  {
    U16(|entries|) + EncodeTables(entries)
  }

  // ---- Decoding; None where a field does not unpack or a type has no such name

  datatype Decoded<+T> = Got(value: T, rest: seq<Byte>) | Bad

  function DecodeName(raw: seq<Byte>): (r: Decoded<Name>)
    ensures r.Got? ==> |r.rest| < |raw|
  {
    if |raw| < 2 then Bad
    else var n := GetU16(raw[..2]); Got(Slice(raw, 2, 2 + n), Slice(raw, 2 + n, |raw|))
  }

  function DecodeColumn(raw: seq<Byte>): Decoded<Column> {
    match DecodeName(raw)
    case Bad => Bad
    case Got(name, rest) =>
      match DecodeName(rest)
      case Bad => Bad
      case Got(typeName, rest') =>
        match TypeNamed(typeName) case None => Bad case Some(t) => Got(Column(name, t), rest')
  }

  function DecodeColumns(raw: seq<Byte>, n: nat): Decoded<seq<Column>>
    decreases n
  {
    if n == 0 then Got([], raw)
    else
      match DecodeColumn(raw)
      case Bad => Bad
      case Got(c, rest) =>
        match DecodeColumns(rest, n - 1) case Bad => Bad case Got(cs, rest') => Got([c] + cs, rest')
  }

  function DecodeTable(raw: seq<Byte>): Decoded<TableMeta> {
    match DecodeName(raw)
    case Bad => Bad
    case Got(name, rest) =>
      if |rest| < 6 then Bad
      else
        match DecodeColumns(rest[6..], GetU16(rest[4..6]))
        case Bad => Bad
        case Got(cs, rest') => Got(TableMeta(name, GetU32(rest[..4]), cs), rest')
  }

  function DecodeTables(raw: seq<Byte>, n: nat): Decoded<seq<TableMeta>>
    decreases n
  {
    if n == 0 then Got([], raw)
    else
      match DecodeTable(raw)
      case Bad => Bad
      case Got(t, rest) =>
        match DecodeTables(rest, n - 1) case Bad => Bad case Got(ts, rest') => Got([t] + ts, rest')
  }

  function DecodeCatalog(raw: seq<Byte>): Decoded<seq<TableMeta>> {
    if |raw| < 2 then Bad else DecodeTables(raw[2..], GetU16(raw[..2]))
  }

  // ---- Decoding undoes encoding

  lemma NameBack(s: Name, rest: seq<Byte>)
    requires |s| < U16_LIMIT
    ensures DecodeName(EncodeName(s) + rest) == Got(s, rest)
  {
    hide U16, GetU16;
    var raw := EncodeName(s) + rest;
    assert raw[..2] == U16(|s|);
    assert raw[2..2 + |s|] == s && raw[2 + |s|..] == rest;
  }

  lemma TypeNameBack(t: RowCodec.ColumnType)
    ensures TypeNamed(TypeName(t)) == Some(t)
  {
  }

  lemma ColumnBack(c: Column, rest: seq<Byte>)
    requires ColumnFits(c)
    ensures DecodeColumn(EncodeColumn(c) + rest) == Got(c, rest)
  {
    hide EncodeName, DecodeName, TypeName, TypeNamed;
    var typeName := EncodeName(TypeName(c.colType));
    Associative(EncodeName(c.name), typeName, rest);
    NameBack(c.name, typeName + rest);
    NameBack(TypeName(c.colType), rest);
    TypeNameBack(c.colType);
  }

  lemma {:induction false} ColumnsBack(cs: seq<Column>, rest: seq<Byte>)
    requires forall i :: 0 <= i < |cs| ==> ColumnFits(cs[i])
    ensures DecodeColumns(EncodeColumns(cs) + rest, |cs|) == Got(cs, rest)
    decreases |cs|
  {
    hide EncodeColumn, DecodeColumn, ColumnFits;
    if cs == [] {
      assert EncodeColumns(cs) + rest == rest;
    } else {
      Associative(EncodeColumn(cs[0]), EncodeColumns(cs[1..]), rest);
      ColumnBack(cs[0], EncodeColumns(cs[1..]) + rest);
      ColumnsBack(cs[1..], rest);
      assert [cs[0]] + cs[1..] == cs;
    }
  }

  lemma TableBack(t: TableMeta, rest: seq<Byte>)
    requires TableFits(t)
    ensures DecodeTable(EncodeTable(t) + rest) == Got(t, rest)
  {
    hide EncodeName, DecodeName, EncodeColumns, DecodeColumns, U16, U32, GetU16, GetU32;
    var columns := EncodeColumns(t.schema);
    var tail := U32(t.root) + (U16(|t.schema|) + columns);
    Associative(EncodeName(t.name), tail, rest);
    NameBack(t.name, tail + rest);
    assert (tail + rest)[..4] == U32(t.root);
    assert (tail + rest)[4..6] == U16(|t.schema|);
    assert (tail + rest)[6..] == columns + rest;
    ColumnsBack(t.schema, rest);
  }

  lemma {:induction false} TablesBack(ts: seq<TableMeta>, rest: seq<Byte>)
    requires forall i :: 0 <= i < |ts| ==> TableFits(ts[i])
    ensures DecodeTables(EncodeTables(ts) + rest, |ts|) == Got(ts, rest)
    decreases |ts|
  {
    hide EncodeTable, DecodeTable, TableFits;
    if ts == [] {
      assert EncodeTables(ts) + rest == rest;
    } else {
      Associative(EncodeTable(ts[0]), EncodeTables(ts[1..]), rest);
      TableBack(ts[0], EncodeTables(ts[1..]) + rest);
      TablesBack(ts[1..], rest);
      assert [ts[0]] + ts[1..] == ts;
    }
  }

  /** The catalog comes back as it was, whatever is behind its bytes. */
  lemma CatalogBack(entries: seq<TableMeta>, rest: seq<Byte>)
    requires CatalogFits(entries)
    ensures DecodeCatalog(EncodeCatalog(entries) + rest) == Got(entries, rest)
  {
    hide EncodeTables, DecodeTables, U16, GetU16;
    var raw := EncodeCatalog(entries) + rest;
    assert raw[..2] == U16(|entries|);
    assert raw[2..] == EncodeTables(entries) + rest;
    TablesBack(entries, rest);
  }

  // ---- A list that is cut short does not decode

  /** A name that is cut short leaves nothing behind it. */
  lemma NameCut(s: Name, p: seq<Byte>)
    requires |s| < U16_LIMIT && p < EncodeName(s)
    ensures var r := DecodeName(p); r == Bad || (r.value < s && r.rest == [])
  {
    hide U16, GetU16;
    if |p| >= 2 {
      assert p[..2] == EncodeName(s)[..2] == U16(|s|);
      assert p[2..] == EncodeName(s)[2..][..|p| - 2];
    }
  }

  /** Where a prefix of two parts ends. */
  lemma PrefixParts(a: seq<Byte>, b: seq<Byte>, p: seq<Byte>)
    requires p < a + b
    ensures |p| < |a| ==> p < a
    ensures |p| >= |a| ==> p == a + p[|a|..] && p[|a|..] < b
  {
    if |p| < |a| {
      assert p == (a + b)[..|p|] == a[..|p|];
    } else {
      assert p == (a + b)[..|p|] == a + b[..|p| - |a|];
    }
  }

  /** No type name is the beginning of another. */
  lemma TypeNameCut(s: Name, t: RowCodec.ColumnType)
    requires s < TypeName(t)
    ensures TypeNamed(s) == None
  {
    assert s != [] ==> s[0] == TypeName(t)[0];
  }

  lemma ColumnCut(c: Column, p: seq<Byte>)
    requires ColumnFits(c) && p < EncodeColumn(c)
    ensures DecodeColumn(p) == Bad
  {
    hide EncodeName, DecodeName, TypeName, TypeNamed;
    var name, typeName := EncodeName(c.name), EncodeName(TypeName(c.colType));
    PrefixParts(name, typeName, p);
    if |p| < |name| {
      NameCut(c.name, p);
      NothingLeft();
    } else {
      NameBack(c.name, p[|name|..]);
      NameCut(TypeName(c.colType), p[|name|..]);
      if DecodeName(p[|name|..]).Got? {
        TypeNameCut(DecodeName(p[|name|..]).value, c.colType);
      }
    }
  }

  lemma NothingLeft()
    ensures DecodeName([]) == Bad
  {
  }

  lemma {:induction false} ColumnsCut(cs: seq<Column>, p: seq<Byte>)
    requires (forall i :: 0 <= i < |cs| ==> ColumnFits(cs[i])) && p < EncodeColumns(cs)
    ensures DecodeColumns(p, |cs|) == Bad
    decreases |cs|
  {
    hide EncodeColumn, DecodeColumn, ColumnFits;
    var first, rest := EncodeColumn(cs[0]), EncodeColumns(cs[1..]);
    PrefixParts(first, rest, p);
    if |p| < |first| {
      ColumnCut(cs[0], p);
    } else {
      ColumnBack(cs[0], p[|first|..]);
      ColumnsCut(cs[1..], p[|first|..]);
    }
  }

  lemma TableCut(t: TableMeta, p: seq<Byte>)
    requires TableFits(t) && p < EncodeTable(t)
    ensures DecodeTable(p) == Bad
  {
    hide EncodeName, DecodeName, EncodeColumns, DecodeColumns, U16, U32, GetU16, GetU32;
    var name, columns := EncodeName(t.name), EncodeColumns(t.schema);
    var tail := U32(t.root) + (U16(|t.schema|) + columns);
    PrefixParts(name, tail, p);
    if |p| < |name| {
      NameCut(t.name, p);
    } else {
      var rest := p[|name|..];
      NameBack(t.name, rest);
      if |rest| >= 6 {
        assert rest == tail[..|rest|];
        assert rest[4..6] == tail[4..6] == U16(|t.schema|);
        assert rest[6..] == columns[..|rest| - 6];
        ColumnsCut(t.schema, rest[6..]);
      }
    }
  }

  lemma {:induction false} TablesCut(ts: seq<TableMeta>, p: seq<Byte>)
    requires (forall i :: 0 <= i < |ts| ==> TableFits(ts[i])) && p < EncodeTables(ts)
    ensures DecodeTables(p, |ts|) == Bad
    decreases |ts|
  {
    hide EncodeTable, DecodeTable, TableFits;
    var first, rest := EncodeTable(ts[0]), EncodeTables(ts[1..]);
    PrefixParts(first, rest, p);
    if |p| < |first| {
      TableCut(ts[0], p);
    } else {
      TableBack(ts[0], p[|first|..]);
      TablesCut(ts[1..], p[|first|..]);
    }
  }

  /** A catalog that is cut anywhere cannot be decoded. */
  lemma CatalogCut(entries: seq<TableMeta>, p: seq<Byte>)
    requires CatalogFits(entries) && p < EncodeCatalog(entries)
    ensures DecodeCatalog(p) == Bad
  {
    hide EncodeTables, DecodeTables, U16, GetU16;
    var raw := EncodeCatalog(entries);
    if |p| >= 2 {
      assert p == raw[..|p|];
      assert p[..2] == raw[..2] == U16(|entries|);
      assert p[2..] == EncodeTables(entries)[..|p| - 2];
      TablesCut(entries, p[2..]);
    }
  }

  // ---- The loops

  function After<T>(done: seq<T>, r: Decoded<seq<T>>): Decoded<seq<T>> {
    match r case Bad => Bad case Got(more, rest) => Got(done + more, rest)
  }

  lemma AfterNothing<T>(r: Decoded<seq<T>>)
    ensures After([], r) == r
  {
    if r.Got? {
      assert [] + r.value == r.value;
    }
  }

  lemma AfterOne<T>(done: seq<T>, t: T, r: Decoded<seq<T>>)
    ensures After(done, After([t], r)) == After(done + [t], r)
  {
    if r.Got? {
      assert done + ([t] + r.value) == done + [t] + r.value;
    }
  }

  /** The list's bytes; None when something is too long for its length field. */
  method EncodeEntries(entries: seq<TableMeta>) returns (r: Option<seq<Byte>>)
    ensures r == if CatalogFits(entries) then Some(EncodeCatalog(entries)) else None
  {
    hide EncodeTable, EncodeName, EncodeColumn, U16, U32;
    if !CatalogFits(entries) {
      return None;
    }
    var raw := U16(|entries|);
    assert entries[0..] == entries;
    for i := 0 to |entries|
      invariant raw + EncodeTables(entries[i..]) == EncodeCatalog(entries)
    {
      assert entries[i..][1..] == entries[i + 1..];
      Associative(raw, EncodeTable(entries[i]), EncodeTables(entries[i + 1..]));
      raw := AppendTable(raw, entries[i]);
    }
    assert raw + [] == raw;
    r := Some(raw);
  }

  method AppendTable(raw: seq<Byte>, t: TableMeta) returns (r: seq<Byte>)
    requires TableFits(t)
    ensures r == raw + EncodeTable(t)
  {
    hide EncodeColumn, EncodeName, U16, U32, TypeName;
    var head := EncodeName(t.name) + U32(t.root) + U16(|t.schema|);
    r := raw + head;
    assert t.schema[0..] == t.schema;
    for i := 0 to |t.schema|
      invariant r + EncodeColumns(t.schema[i..]) == raw + head + EncodeColumns(t.schema)
    {
      var c := t.schema[i];
      assert t.schema[i..][1..] == t.schema[i + 1..];
      Associative(r, EncodeColumn(c), EncodeColumns(t.schema[i + 1..]));
      r := r + EncodeColumn(c);
    }
    assert r + [] == r;
    assert raw + head + EncodeColumns(t.schema) == raw + EncodeTable(t);
  }

  method DecodeEntries(raw: seq<Byte>) returns (r: Decoded<seq<TableMeta>>)
    ensures r == DecodeCatalog(raw)
  {
    hide DecodeTable, GetU16;
    if |raw| < 2 {
      return Bad;
    }
    var count := GetU16(raw[..2]);
    var left := raw[2..];
    var entries: seq<TableMeta> := [];
    AfterNothing(DecodeTables(left, count));
    for i := 0 to count
      invariant DecodeCatalog(raw) == After(entries, DecodeTables(left, count - i))
    {
      var t := DecodeOne(left);
      if t.Bad? {
        return Bad;
      }
      AfterOne(entries, t.value, DecodeTables(t.rest, count - i - 1));
      entries, left := entries + [t.value], t.rest;
    }
    assert entries + [] == entries;
    r := Got(entries, left);
  }

  method DecodeOne(raw: seq<Byte>) returns (r: Decoded<TableMeta>)
    ensures r == DecodeTable(raw)
  {
    hide DecodeColumn, DecodeName, GetU16, GetU32;
    var name := DecodeName(raw);
    if name.Bad? || |name.rest| < 6 {
      return Bad;
    }
    var root, count := GetU32(name.rest[..4]), GetU16(name.rest[4..6]);
    var left := name.rest[6..];
    var schema: seq<Column> := [];
    AfterNothing(DecodeColumns(left, count));
    for i := 0 to count
      invariant DecodeColumns(name.rest[6..], count) == After(schema, DecodeColumns(left, count - i))
    {
      var c := DecodeColumn(left);
      if c.Bad? {
        return Bad;
      }
      AfterOne(schema, c.value, DecodeColumns(c.rest, count - i - 1));
      schema, left := schema + [c.value], c.rest;
    }
    assert schema + [] == schema;
    r := Got(TableMeta(name.value, root, schema), left);
  }
}
