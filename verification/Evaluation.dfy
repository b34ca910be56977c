/** Evaluating predicates over row dictionaries, with NULL and with Python's comparisons. */
module Evaluation {
  import opened Bytes
  import opened RowCodec
  import opened Tokens
  import opened Predicates

  type Row = map<string, Value>

  /** The real number that a float's eight bytes stand for, and the value of a literal, are left open. */
  datatype Meaning = Meaning(float: seq<Byte> -> real, literal: Literal -> Value)

  /** A comparison of a number with a text raises. */
  datatype Evaluated<+T> = Known(value: T) | TypeError

  /** What two values have in common that are equal: numbers and booleans compare as numbers. */
  datatype Key = NumberKey(x: real) | TextKey(utf8: seq<Byte>) | NullKey

  function KeyOf(v: Value, m: Meaning): Key {
    match v
    case Null => NullKey
    case IntValue(n) => NumberKey(n as real)
    case FloatValue(bits) => NumberKey(m.float(bits))
    case TextValue(utf8) => TextKey(utf8)
    case BoolValue(b) => NumberKey(if b then 1.0 else 0.0)
  }

  function TextLess(a: seq<Byte>, b: seq<Byte>): bool {
    b != [] && (a == [] || a[0] < b[0] || (a[0] == b[0] && TextLess(a[1..], b[1..])))
  }

  function KeyLess(a: Key, b: Key): Evaluated<bool> {
    match (a, b)
    case (NumberKey(x), NumberKey(y)) => Known(x < y)
    case (TextKey(s), TextKey(t)) => Known(TextLess(s, t))
    case _ => TypeError
  }

  function Not(r: Evaluated<bool>): Evaluated<bool> {
    match r case Known(b) => Known(!b) case TypeError => TypeError
  }

  /** A comparison with NULL is false. */
  function Compare(op: CompareOp, l: Value, r: Value, m: Meaning): Evaluated<bool> {
    if l == Null || r == Null then Known(false)
    else
      var a, b := KeyOf(l, m), KeyOf(r, m);
      match op
      case Eq => Known(a == b)
      case Ne => Known(a != b)
      case Lt => KeyLess(a, b)
      case Le => Not(KeyLess(b, a))
      case Gt => KeyLess(b, a)
      case Ge => Not(KeyLess(a, b))
  }

  function Get(row: Row, name: string): Value { if name in row then row[name] else Null }

  function Qualified(table: string, name: string): string { table + "." + name }

  /** A qualified column falls back on the plain name. */
  function GetQualified(row: Row, table: string, name: string): Value {
    if Qualified(table, name) in row then row[Qualified(table, name)] else Get(row, name)
  }

  function EvalExpr(e: Expr, row: Row, m: Meaning): Evaluated<Value> {
    match e
    case Lit(v) => Known(m.literal(v))
    case Column(name) => Known(Get(row, name))
    case QualifiedColumn(table, name) => Known(GetQualified(row, table, name))
    case Binary(op, l, r) =>
      (match (EvalExpr(l, row, m), EvalExpr(r, row, m))
       case (Known(x), Known(y)) =>
         (match Compare(op, x, y, m) case Known(b) => Known(BoolValue(b)) case TypeError => TypeError)
       case _ => TypeError)
    case IsNull(x, negated) =>
      (match EvalExpr(x, row, m) case Known(v) => Known(BoolValue((v == Null) != negated)) case TypeError => TypeError)
    case _ => Known(Null)
  }

  function Truth(v: Value, m: Meaning): bool {
    match KeyOf(v, m)
    case NullKey => false
    case NumberKey(x) => x != 0.0
    case TextKey(utf8) => utf8 != []
  }

  /** NULL is in a list that has NULL in it. */
  function InValues(v: Value, values: seq<Literal>, m: Meaning): bool {
    exists i :: 0 <= i < |values| && KeyOf(v, m) == KeyOf(m.literal(values[i]), m)
  }

  function EvalPredicate(e: Expr, row: Row, m: Meaning): Evaluated<bool> {
    match e
    case Logical(c, l, r) =>
      (match EvalPredicate(l, row, m)
       case TypeError => TypeError
       case Known(b) => if b == (c == Or) then Known(b) else EvalPredicate(r, row, m))
    case In(x, values, negated) =>
      (match EvalExpr(x, row, m) case Known(v) => Known(InValues(v, values, m) != negated) case TypeError => TypeError)
    case _ =>
      (match EvalExpr(e, row, m) case Known(v) => Known(Truth(v, m)) case TypeError => TypeError)
  }

  // ---- what a comparison means

  /** The value is a number, a boolean counted as 0 or 1, and this is its amount. */
  ghost predicate IsAmount(v: Value, x: real, m: Meaning) {
    || (v.IntValue? && x == v.n as real)
    || (v.FloatValue? && x == m.float(v.bits))
    || (v.BoolValue? && x == if v.b then 1.0 else 0.0)
  }

  /** Two numbers of any kinds compare by their amounts. */
  lemma NumbersCompare(op: CompareOp, a: Value, b: Value, x: real, y: real, m: Meaning)
    requires IsAmount(a, x, m) && IsAmount(b, y, m)
    ensures Compare(op, a, b, m)
         == Known(match op
                  case Eq => x == y
                  case Ne => x < y || x > y
                  case Lt => x < y
                  case Le => x < y || x == y
                  case Gt => x > y
                  case Ge => x > y || x == y)
  {
  }

  lemma IntegersCompare(op: CompareOp, x: int, y: int, m: Meaning)
    ensures Compare(op, IntValue(x), IntValue(y), m)
         == Known(match op
                  case Eq => x == y
                  case Ne => x != y
                  case Lt => x < y
                  case Le => x <= y
                  case Gt => x > y
                  case Ge => x >= y)
  {
    NumbersCompare(op, IntValue(x), IntValue(y), x as real, y as real, m);
  }

  /** Nothing compares with NULL, not even NULL. */
  lemma NullCompares(op: CompareOp, v: Value, m: Meaning)
    ensures Compare(op, Null, v, m) == Known(false) && Compare(op, v, Null, m) == Known(false)
  {
  }

  /** A number and a text are never equal, and asking for their order raises. */
  lemma MixedCompare(op: CompareOp, a: Value, utf8: seq<Byte>, x: real, m: Meaning)
    requires IsAmount(a, x, m)
    ensures Compare(op, a, TextValue(utf8), m) == Compare(op, TextValue(utf8), a, m)
         == match op case Eq => Known(false) case Ne => Known(true) case _ => TypeError
  {
  }

  /** Two texts compare by the first bytes in which they differ, and a proper prefix is less. */
  lemma {:induction false} TextsDiffer(c: seq<Byte>, s: seq<Byte>, t: seq<Byte>)
    requires s != [] && (t == [] || t[0] != s[0])
    ensures TextLess(c + s, c + t) <==> t != [] && s[0] < t[0]
    ensures TextLess(c + t, c + s) <==> t == [] || t[0] < s[0]
    ensures !TextLess(c, c)
  {
    if c == [] {
      assert c + s == s && c + t == t;
    } else {
      TextsDiffer(c[1..], s, t);
      assert (c + s)[1..] == c[1..] + s && (c + t)[1..] == c[1..] + t;
    }
  }

  /** So any two texts are equal or one of them is less. */
  lemma {:induction false} TextsTotal(s: seq<Byte>, t: seq<Byte>)
    ensures !TextLess(s, s)
    ensures s == t || TextLess(s, t) || TextLess(t, s)
    ensures !(TextLess(s, t) && TextLess(t, s))
  {
    if s != [] && t != [] {
      TextsTotal(s[1..], t[1..]);
      assert s[1..] == t[1..] && s[0] == t[0] ==> s == t;
    } else if s != [] {
      TextsTotal(s[1..], []);
    }
  }

  lemma {:induction false} TextsTransitive(r: seq<Byte>, s: seq<Byte>, t: seq<Byte>)
    requires TextLess(r, s) && TextLess(s, t)
    ensures TextLess(r, t)
  {
    if r != [] && r[0] == s[0] == t[0] {
      TextsTransitive(r[1..], s[1..], t[1..]);
    }
  }

  lemma TextsCompare(op: CompareOp, s: seq<Byte>, t: seq<Byte>, m: Meaning)
    ensures Compare(op, TextValue(s), TextValue(t), m)
         == Known(match op
                  case Eq => s == t
                  case Ne => s != t
                  case Lt => TextLess(s, t)
                  case Le => s == t || TextLess(s, t)
                  case Gt => TextLess(t, s)
                  case Ge => s == t || TextLess(t, s))
  {
    TextsTotal(s, t);
    TextsTotal(t, s);
  }

  // ---- what a predicate means

  /** A comparison as a predicate compares the values of its sides. */
  lemma ComparisonMeans(op: CompareOp, l: Expr, r: Expr, row: Row, m: Meaning)
    ensures EvalPredicate(Binary(op, l, r), row, m)
         == match EvalExpr(l, row, m)
            case TypeError => TypeError
            case Known(a) => match EvalExpr(r, row, m) case TypeError => TypeError case Known(b) => Compare(op, a, b, m)
  {
  }

  /** A column has the row's value, or NULL; a qualified one has that of the qualified name if there is one. */
  lemma ColumnMeans(table: string, name: string, row: Row, m: Meaning)
    ensures EvalExpr(Column(name), row, m) == Known(if name in row then row[name] else Null)
    ensures EvalExpr(QualifiedColumn(table, name), row, m)
         == Known(if table + "." + name in row then row[table + "." + name]
                  else if name in row then row[name]
                  else Null)
  {
  }

  /** Conjunction and disjunction; a left side that decides keeps the right one from being looked at. */
  lemma ConnectiveMeans(l: Expr, r: Expr, row: Row, m: Meaning)
    ensures EvalPredicate(l, row, m) == Known(false) ==>
              && EvalPredicate(Logical(And, l, r), row, m) == Known(false)
              && EvalPredicate(Logical(Or, l, r), row, m) == EvalPredicate(r, row, m)
    ensures EvalPredicate(l, row, m) == Known(true) ==>
              && EvalPredicate(Logical(And, l, r), row, m) == EvalPredicate(r, row, m)
              && EvalPredicate(Logical(Or, l, r), row, m) == Known(true)
    ensures EvalPredicate(l, row, m) == TypeError ==>
              && EvalPredicate(Logical(And, l, r), row, m) == TypeError
              && EvalPredicate(Logical(Or, l, r), row, m) == TypeError
  {
  }

  /** NULL tests look at the value of their operand and raise only with it. */
  lemma NullTestMeans(x: Expr, negated: bool, row: Row, m: Meaning)
    ensures EvalPredicate(IsNull(x, negated), row, m)
         == match EvalExpr(x, row, m)
            case TypeError => TypeError
            case Known(v) => Known(if negated then v != Null else v == Null)
  {
  }

  /** Two values are the same in a list: NULL and NULL, numbers of one amount, or one text. */
  ghost predicate Same(a: Value, b: Value, m: Meaning) {
    || (a == Null && b == Null)
    || (exists x :: IsAmount(a, x, m) && IsAmount(b, x, m))
    || (a.TextValue? && a == b)
  }

  lemma SameKeys(a: Value, b: Value, m: Meaning)
    ensures Same(a, b, m) <==> KeyOf(a, m) == KeyOf(b, m)
  {
    if !a.Null? && !a.TextValue? && KeyOf(a, m) == KeyOf(b, m) {
      var x := match a
        case IntValue(n) => n as real
        case FloatValue(bits) => m.float(bits)
        case BoolValue(t) => if t then 1.0 else 0.0;
      assert IsAmount(a, x, m) && IsAmount(b, x, m);
    }
  }

  /**
    * A value is in a list exactly when it is the same as one of its literals, NULL among NULLs, and NOT IN is the
    * contrary.
    */
  lemma InMeans(x: Expr, values: seq<Literal>, negated: bool, row: Row, m: Meaning)
    ensures
      match EvalExpr(x, row, m)
      case TypeError => EvalPredicate(In(x, values, negated), row, m) == TypeError
      case Known(v) =>
        && EvalPredicate(In(x, values, negated), row, m).Known?
        && (EvalPredicate(In(x, values, negated), row, m).value != negated
            <==> exists i :: 0 <= i < |values| && Same(v, m.literal(values[i]), m))
  {
    hide Same, KeyOf;
    if EvalExpr(x, row, m).Known? {
      forall i | 0 <= i < |values|
        ensures Same(EvalExpr(x, row, m).value, m.literal(values[i]), m)
           <==> KeyOf(EvalExpr(x, row, m).value, m) == KeyOf(m.literal(values[i]), m)
      {
        SameKeys(EvalExpr(x, row, m).value, m.literal(values[i]), m);
      }
    }
  }

  /** A column or a literal alone holds when it is there and neither zero, false nor an empty text. */
  lemma ValueMeans(e: Expr, row: Row, m: Meaning)
    requires e.Lit? || e.Column? || e.QualifiedColumn?
    ensures EvalExpr(e, row, m).Known? && EvalPredicate(e, row, m).Known?
    ensures
      var v := EvalExpr(e, row, m).value;
      EvalPredicate(e, row, m).value <==> v != Null && v != TextValue([]) && !IsAmount(v, 0.0, m)
  {
  }

  /** BETWEEN over integers, as it is parsed. */
  lemma BetweenHolds(x: Expr, lo: Expr, hi: Expr, k: int, a: int, b: int, row: Row, m: Meaning)
    requires EvalExpr(x, row, m) == Known(IntValue(k))
    requires EvalExpr(lo, row, m) == Known(IntValue(a)) && EvalExpr(hi, row, m) == Known(IntValue(b))
    ensures EvalPredicate(Logical(And, Binary(Ge, x, lo), Binary(Le, x, hi)), row, m) == Known(a <= k <= b)
  {
    hide Compare, EvalExpr, EvalPredicate;
    IntegersCompare(Ge, k, a, m);
    IntegersCompare(Le, k, b, m);
    ComparisonMeans(Ge, x, lo, row, m);
    ComparisonMeans(Le, x, hi, row, m);
    ConnectiveMeans(Binary(Ge, x, lo), Binary(Le, x, hi), row, m);
  }
}
