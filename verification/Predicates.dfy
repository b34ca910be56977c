/** Predicate expressions: the grammar as functions over the remaining tokens, printing, and why parsing undoes it. */
module Predicates {
  import opened Tokens

  /** A number is known by its digits; `int` and `float` turn them into a value. */
  datatype Literal = NumberLit(digits: string) | TextLit(text: string) | BoolLit(b: bool) | NullLit

  datatype Connective = Or | And

  datatype Expr =
    | Lit(literal: Literal)
    | Column(name: string)
    | QualifiedColumn(table: string, name: string)
    | Binary(op: CompareOp, left: Expr, right: Expr)
    | IsNull(operand: Expr, negated: bool)
    | In(operand: Expr, values: seq<Literal>, negated: bool)
    | Logical(connective: Connective, left: Expr, right: Expr)

  /** `Unexpected` is a ParseError; `NotANumber` is what `float` makes of digits with two points. */
  datatype Error = Unexpected | NotANumber

  datatype Parsed<+T> = Ok(value: T, rest: seq<Token>) | Err(error: Error)

  function Points(digits: string): nat {
    if digits == "" then 0 else (if digits[0] == '.' then 1 else 0) + Points(digits[1..])
  }

  predicate Converts(digits: string) { Points(digits) <= 1 }

  function Peek(ts: seq<Token>): Token { if ts == [] then Eof else ts[0] }

  // ---- The grammar

  function OrExpr(ts: seq<Token>): (r: Parsed<Expr>)
    ensures r.Ok? ==> |r.rest| < |ts| && Printable(r.value)
    decreases |ts|, 5
  {
    match AndExpr(ts)
    case Err(e) => Err(e)
    case Ok(left, rest) => OrTail(left, rest)
  }

  function OrTail(left: Expr, ts: seq<Token>): (r: Parsed<Expr>)
    ensures r.Ok? && Printable(left) ==> |r.rest| <= |ts| && Printable(r.value)
    decreases |ts|, 4
  {
    if Peek(ts) != Keyword("OR") then Ok(left, ts)
    else
      match AndExpr(ts[1..])
      case Err(e) => Err(e)
      case Ok(right, rest) => OrTail(Logical(Or, left, right), rest)
  }

  function AndExpr(ts: seq<Token>): (r: Parsed<Expr>)
    ensures r.Ok? ==> |r.rest| < |ts| && Printable(r.value)
    decreases |ts|, 3
  {
    match Comparison(ts)
    case Err(e) => Err(e)
    case Ok(left, rest) => AndTail(left, rest)
  }

  function AndTail(left: Expr, ts: seq<Token>): (r: Parsed<Expr>)
    ensures r.Ok? && Printable(left) ==> |r.rest| <= |ts| && Printable(r.value)
    decreases |ts|, 2
  {
    if Peek(ts) != Keyword("AND") then Ok(left, ts)
    else
      match Comparison(ts[1..])
      case Err(e) => Err(e)
      case Ok(right, rest) => AndTail(Logical(And, left, right), rest)
  }

  function Comparison(ts: seq<Token>): (r: Parsed<Expr>)
    ensures r.Ok? ==> |r.rest| < |ts| && Printable(r.value)
    decreases |ts|, 1
  {
    match Primary(ts)
    case Err(e) => Err(e)
    case Ok(left, rest) => ComparisonTail(left, rest)
  }

  function ComparisonTail(left: Expr, ts: seq<Token>): (r: Parsed<Expr>)
    ensures r.Ok? && Printable(left) ==> |r.rest| <= |ts| && Printable(r.value)
    decreases |ts|, 0
  {
    match Peek(ts)
    case Keyword("IS") => NullTest(left, ts[1..])
    case Keyword("NOT") => if Peek(ts[1..]) == Keyword("IN") then InList(left, true, ts[1..][1..]) else Err(Unexpected)
    case Keyword("IN") => InList(left, false, ts[1..])
    case Keyword("BETWEEN") => Between(left, ts[1..])
    case Operator(op) =>
      (match Primary(ts[1..])
       case Err(e) => Err(e)
       case Ok(right, rest) => Ok(Binary(op, left, right), rest))
    case _ => Ok(left, ts)
  }

  function NullTest(left: Expr, ts: seq<Token>): (r: Parsed<Expr>)
    ensures r.Ok? && Printable(left) ==> |r.rest| <= |ts| && Printable(r.value)
  {
    var negated := Peek(ts) == Keyword("NOT");
    var after := if negated then ts[1..] else ts;
    if Peek(after) == Keyword("NULL") then Ok(IsNull(left, negated), after[1..]) else Err(Unexpected)
  }

  function Between(left: Expr, ts: seq<Token>): (r: Parsed<Expr>)
    ensures r.Ok? && Printable(left) ==> |r.rest| <= |ts| && Printable(r.value)
    decreases |ts|, 1
  {
    match Primary(ts)
    case Err(e) => Err(e)
    case Ok(lo, rest) =>
      if Peek(rest) != Keyword("AND") then Err(Unexpected)
      else
        match Primary(rest[1..])
        case Err(e) => Err(e)
        case Ok(hi, rest') => Ok(Logical(And, Binary(Ge, left, lo), Binary(Le, left, hi)), rest')
  }

  function InList(left: Expr, negated: bool, ts: seq<Token>): (r: Parsed<Expr>)
    ensures r.Ok? && Printable(left) ==> |r.rest| <= |ts| && Printable(r.value)
  {
    if Peek(ts) != Punct('(') then Err(Unexpected)
    else
      match Values(ts[1..])
      case Err(e) => Err(e)
      case Ok(values, rest) =>
        if Peek(rest) == Punct(')') then Ok(In(left, values, negated), rest[1..]) else Err(Unexpected)
  }

  function Values(ts: seq<Token>): (r: Parsed<seq<Literal>>)
    ensures r.Ok? ==>
              |r.rest| <= |ts| && r.value != [] && forall i :: 0 <= i < |r.value| ==> PrintableLiteral(r.value[i])
  {
    match Value(ts)
    case Err(e) => Err(e)
    case Ok(v, rest) => ValuesTail([v], rest)
  }

  function ValuesTail(values: seq<Literal>, ts: seq<Token>): (r: Parsed<seq<Literal>>)
    requires values != [] && forall i :: 0 <= i < |values| ==> PrintableLiteral(values[i])
    ensures r.Ok? ==>
              |r.rest| <= |ts| && r.value != [] && forall i :: 0 <= i < |r.value| ==> PrintableLiteral(r.value[i])
    decreases |ts|
  {
    if Peek(ts) != Punct(',') then Ok(values, ts)
    else
      match Value(ts[1..])
      case Err(e) => Err(e)
      case Ok(v, rest) => ValuesTail(values + [v], rest)
  }

  function Value(ts: seq<Token>): (r: Parsed<Literal>)
    ensures r.Ok? ==> |r.rest| < |ts| && PrintableLiteral(r.value)
  {
    match Peek(ts)
    case Number(digits) => if Converts(digits) then Ok(NumberLit(digits), ts[1..]) else Err(NotANumber)
    case Text(text) => Ok(TextLit(text), ts[1..])
    case Keyword("TRUE") => Ok(BoolLit(true), ts[1..])
    case Keyword("FALSE") => Ok(BoolLit(false), ts[1..])
    case Keyword("NULL") => Ok(NullLit, ts[1..])
    case _ => Err(Unexpected)
  }

  function Primary(ts: seq<Token>): (r: Parsed<Expr>)
    ensures r.Ok? ==> |r.rest| < |ts| && Printable(r.value)
    decreases |ts|, 0
  {
    match Peek(ts)
    case Ident(name) =>
      if Peek(ts[1..]) != Punct('.') then Ok(Column(name), ts[1..])
      else if Peek(ts[2..]).Ident? then Ok(QualifiedColumn(name, ts[2].name), ts[3..])
      else Err(Unexpected)
    case Punct(mark) =>
      if mark != '(' then Err(Unexpected)
      else
        (match OrExpr(ts[1..])
         case Err(e) => Err(e)
         case Ok(e, rest) => if Peek(rest) == Punct(')') then Ok(e, rest[1..]) else Err(Unexpected))
    case _ =>
      (match Value(ts)
       case Err(e) => Err(e)
       case Ok(v, rest) => Ok(Lit(v), rest))
  }

  // ---- Printing, with no more parentheses than the grammar needs

  predicate PrintableLiteral(v: Literal) { v.NumberLit? ==> Converts(v.digits) }

  /** The expressions that have a spelling: lists are not empty, and digits are those of a number. */
  predicate Printable(e: Expr) {
    match e
    case Lit(v) => PrintableLiteral(v)
    case Column(_) => true
    case QualifiedColumn(_, _) => true
    case Binary(_, l, r) => Printable(l) && Printable(r)
    case IsNull(x, _) => Printable(x)
    case In(x, values, _) =>
      Printable(x) && values != [] && forall i :: 0 <= i < |values| ==> PrintableLiteral(values[i])
    case Logical(_, l, r) => Printable(l) && Printable(r)
  }

  function PrintLiteral(v: Literal): Token {
    match v
    case NumberLit(digits) => Number(digits)
    case TextLit(text) => Text(text)
    case BoolLit(b) => Keyword(if b then "TRUE" else "FALSE")
    case NullLit => Keyword("NULL")
  }

  function PrintTail(values: seq<Literal>): seq<Token> {
    if values == [] then [Punct(')')] else [Punct(','), PrintLiteral(values[0])] + PrintTail(values[1..])
  }

  const OR_LEVEL: int := 0
  const AND_LEVEL: int := 1
  const COMPARISON_LEVEL: int := 2
  const PRIMARY_LEVEL: int := 3

  /** How tightly an expression binds. */
  function Level(e: Expr): (n: int)
    ensures OR_LEVEL <= n <= PRIMARY_LEVEL
  {
    match e
    case Logical(c, _, _) => if c == Or then OR_LEVEL else AND_LEVEL
    case Binary(_, _, _) => COMPARISON_LEVEL
    case IsNull(_, _) => COMPARISON_LEVEL
    case In(_, _, _) => COMPARISON_LEVEL
    case _ => PRIMARY_LEVEL
  }

  /** The tokens of `e` where an operand that binds at least as tightly as `level` is asked for. */
  function Print(e: Expr, level: int): seq<Token>
    requires Printable(e)
    decreases e, 1
  {
    if Level(e) >= level then PrintBare(e) else [Punct('(')] + PrintBare(e) + [Punct(')')]
  }

  function PrintBare(e: Expr): seq<Token>
    requires Printable(e)
    decreases e, 0
  {
    match e
    case Lit(v) => [PrintLiteral(v)]
    case Column(name) => [Ident(name)]
    case QualifiedColumn(table, name) => [Ident(table), Punct('.'), Ident(name)]
    case Binary(op, l, r) => Print(l, PRIMARY_LEVEL) + [Operator(op)] + Print(r, PRIMARY_LEVEL)
    case IsNull(x, negated) =>
      Print(x, PRIMARY_LEVEL)
          + (if negated then [Keyword("IS"), Keyword("NOT"), Keyword("NULL")] else [Keyword("IS"), Keyword("NULL")])
    case In(x, values, negated) =>
      Print(x, PRIMARY_LEVEL)
          + (if negated then [Keyword("NOT"), Keyword("IN"), Punct('(')] else [Keyword("IN"), Punct('(')])
      + [PrintLiteral(values[0])] + PrintTail(values[1..])
    case Logical(Or, l, r) => Print(l, OR_LEVEL) + [Keyword("OR")] + Print(r, AND_LEVEL)
    case Logical(And, l, r) => Print(l, AND_LEVEL) + [Keyword("AND")] + Print(r, COMPARISON_LEVEL)
  }

  /** The tokens that carry on an expression of this level. */
  predicate Extends(t: Token, level: int) {
    || t == Punct('.')
    || (level <= COMPARISON_LEVEL
        && (t.Operator? || t in [Keyword("IS"), Keyword("NOT"), Keyword("IN"), Keyword("BETWEEN")]))
    || (level <= AND_LEVEL && t == Keyword("AND"))
    || (level <= OR_LEVEL && t == Keyword("OR"))
  }

  // ---- Parsing undoes printing

  /** How far the proof is from an operand when it asks for `e` at `level`. */
  function Rank(e: Expr, level: int): nat { (Level(e) - level) % 4 }

  lemma ValueBack(v: Literal, follow: seq<Token>)
    requires PrintableLiteral(v)
    ensures Value([PrintLiteral(v)] + follow) == Ok(v, follow)
  {
    assert ([PrintLiteral(v)] + follow)[1..] == follow;
  }

  lemma {:induction false} ValuesBack(done: seq<Literal>, values: seq<Literal>, follow: seq<Token>)
    requires done != [] && forall i :: 0 <= i < |done| ==> PrintableLiteral(done[i])
    requires forall i :: 0 <= i < |values| ==> PrintableLiteral(values[i])
    ensures ValuesTail(done, PrintTail(values) + follow) == Ok(done + values, [Punct(')')] + follow)
    decreases |values|
  {
    hide Value, PrintLiteral, PrintableLiteral;
    var ts := PrintTail(values) + follow;
    if values == [] {
      assert ts == [Punct(')')] + follow;
      assert done + values == done;
    } else {
      var rest := PrintTail(values[1..]) + follow;
      assert ts[1..] == [PrintLiteral(values[0])] + rest;
      ValueBack(values[0], rest);
      ValuesBack(done + [values[0]], values[1..], follow);
      assert done + [values[0]] + values[1..] == done + values;
    }
  }

  lemma InBack(x: Expr, negated: bool, values: seq<Literal>, follow: seq<Token>)
    requires values != [] && forall i :: 0 <= i < |values| ==> PrintableLiteral(values[i])
    ensures InList(x, negated, [Punct('('), PrintLiteral(values[0])] + PrintTail(values[1..]) + follow)
         == Ok(In(x, values, negated), follow)
  {
    hide PrintTail, ValuesTail, Value, PrintLiteral, PrintableLiteral;
    var rest := PrintTail(values[1..]) + follow;
    var ts := [Punct('('), PrintLiteral(values[0])] + PrintTail(values[1..]) + follow;
    assert ts[1..] == [PrintLiteral(values[0])] + rest;
    ValueBack(values[0], rest);
    ValuesBack([values[0]], values[1..], follow);
    assert [values[0]] + values[1..] == values;
    assert ([Punct(')')] + follow)[1..] == follow;
  }

  /** What follows the first operand of a comparison. */
  function PrintTailOf(e: Expr): seq<Token>
    requires Printable(e) && Level(e) == COMPARISON_LEVEL
  {
    match e
    case Binary(op, _, r) => [Operator(op)] + Print(r, PRIMARY_LEVEL)
    case IsNull(_, negated) =>
      if negated then [Keyword("IS"), Keyword("NOT"), Keyword("NULL")] else [Keyword("IS"), Keyword("NULL")]
    case In(_, values, negated) =>
      (if negated then [Keyword("NOT"), Keyword("IN")] else [Keyword("IN")])
      + ([Punct('('), PrintLiteral(values[0])] + PrintTail(values[1..]))
  }

  function FirstOperand(e: Expr): Expr
    requires Level(e) == COMPARISON_LEVEL
  {
    if e.Binary? then e.left else e.operand
  }

  lemma ComparisonParts(e: Expr)
    requires Printable(e) && Level(e) == COMPARISON_LEVEL
    ensures Printable(FirstOperand(e)) && FirstOperand(e) < e
    ensures PrintBare(e) == Print(FirstOperand(e), PRIMARY_LEVEL) + PrintTailOf(e)
  {
    hide Print, PrintTail;
  }

  /** The tail of a comparison, once its first operand has been read. */
  lemma TailBack(e: Expr, follow: seq<Token>)
    requires Printable(e) && Level(e) == COMPARISON_LEVEL
    requires e.Binary? ==> Primary(Print(e.right, PRIMARY_LEVEL) + follow) == Ok(e.right, follow)
    ensures !Extends(Peek(PrintTailOf(e) + follow), PRIMARY_LEVEL)
    ensures ComparisonTail(FirstOperand(e), PrintTailOf(e) + follow) == Ok(e, follow)
  {
    hide Print, Primary, PrintTail, InList, Between, ComparisonTail;
    match e
    case Binary(op, l, r) =>
      BinaryTail(l, op, r, follow);
    case IsNull(x, negated) =>
      IsNullTail(x, negated, follow);
    case In(x, values, negated) =>
      InTail(x, values, negated, follow);
  }

  lemma BinaryTail(l: Expr, op: CompareOp, r: Expr, follow: seq<Token>)
    requires Printable(r) && Primary(Print(r, PRIMARY_LEVEL) + follow) == Ok(r, follow)
    ensures ComparisonTail(l, [Operator(op)] + Print(r, PRIMARY_LEVEL) + follow) == Ok(Binary(op, l, r), follow)
  {
    hide Print, Primary, InList, Between, Printable;
    var ts := [Operator(op)] + Print(r, PRIMARY_LEVEL) + follow;
    assert ts[1..] == Print(r, PRIMARY_LEVEL) + follow;
  }

  lemma IsNullTail(x: Expr, negated: bool, follow: seq<Token>)
    ensures ComparisonTail(x, (if negated then [Keyword("IS"), Keyword("NOT"), Keyword("NULL")]
                               else [Keyword("IS"), Keyword("NULL")]) + follow) == Ok(IsNull(x, negated), follow)
  {
    hide Primary, InList, Between, Printable;
    if negated {
      var ts := [Keyword("IS"), Keyword("NOT"), Keyword("NULL")] + follow;
      assert ts[1..] == [Keyword("NOT"), Keyword("NULL")] + follow;
      assert ts[1..][1..] == [Keyword("NULL")] + follow;
      assert ts[1..][1..][1..] == follow;
    } else {
      var ts := [Keyword("IS"), Keyword("NULL")] + follow;
      assert ts[1..] == [Keyword("NULL")] + follow;
      assert ts[1..][1..] == follow;
    }
  }

  lemma InTail(x: Expr, values: seq<Literal>, negated: bool, follow: seq<Token>)
    requires values != [] && forall i :: 0 <= i < |values| ==> PrintableLiteral(values[i])
    ensures ComparisonTail(x, (if negated then [Keyword("NOT"), Keyword("IN")] else [Keyword("IN")])
                              + ([Punct('('), PrintLiteral(values[0])] + PrintTail(values[1..])) + follow)
         == Ok(In(x, values, negated), follow)
  {
    hide Primary, InList, Between, PrintTail, PrintLiteral, Printable, PrintableLiteral;
    InBack(x, negated, values, follow);
    var list := [Punct('('), PrintLiteral(values[0])] + PrintTail(values[1..]);
    if negated {
      var ts := [Keyword("NOT"), Keyword("IN")] + list + follow;
      assert ts[1..] == [Keyword("IN")] + (list + follow);
      assert ts[1..][1..] == list + follow;
    } else {
      var ts := [Keyword("IN")] + list + follow;
      assert ts[1..] == list + follow;
    }
  }

  /** An operand in parentheses, or one that needs none. */
  lemma {:induction false} PrimaryBack(e: Expr, follow: seq<Token>)
    requires Printable(e) && !Extends(Peek(follow), PRIMARY_LEVEL)
    ensures Primary(Print(e, PRIMARY_LEVEL) + follow) == Ok(e, follow)
    decreases e, Rank(e, PRIMARY_LEVEL)
  {
    hide OrExpr, AndExpr, Comparison;
    var ts := Print(e, PRIMARY_LEVEL) + follow;
    if Level(e) < PRIMARY_LEVEL {
      var inner := [Punct(')')] + follow;
      assert ts == [Punct('(')] + (PrintBare(e) + inner);
      assert ts[1..] == Print(e, OR_LEVEL) + inner;
      OrBack(e, inner);
      assert inner[1..] == follow;
    } else {
      AtomBack(e, follow);
    }
  }

  lemma AtomBack(e: Expr, follow: seq<Token>)
    requires Printable(e) && Level(e) == PRIMARY_LEVEL && !Extends(Peek(follow), PRIMARY_LEVEL)
    ensures Primary(Print(e, PRIMARY_LEVEL) + follow) == Ok(e, follow)
  {
    assert Print(e, PRIMARY_LEVEL) == PrintBare(e);
    match e
    case Lit(v) =>
      assert PrintBare(e) == [PrintLiteral(v)];
      assert ([PrintLiteral(v)] + follow)[1..] == follow;
      LiteralBack(e, follow);
    case Column(name) =>
      assert PrintBare(e) == [Ident(name)];
      assert ([Ident(name)] + follow)[1..] == follow;
    case QualifiedColumn(table, name) =>
      assert PrintBare(e) == [Ident(table), Punct('.'), Ident(name)];
      QualifiedBack(table, name, follow);
  }

  lemma LiteralBack(e: Expr, follow: seq<Token>)
    requires e.Lit? && PrintableLiteral(e.literal)
    ensures Primary([PrintLiteral(e.literal)] + follow) == Ok(e, follow)
  {
    assert ([PrintLiteral(e.literal)] + follow)[1..] == follow;
  }

  lemma QualifiedBack(table: string, name: string, follow: seq<Token>)
    ensures Primary([Ident(table), Punct('.'), Ident(name)] + follow) == Ok(QualifiedColumn(table, name), follow)
  {
    var ts := [Ident(table), Punct('.'), Ident(name)] + follow;
    assert ts[1..][0] == Punct('.') && ts[2..][0] == Ident(name);
    assert ts[3..] == follow;
  }

  /** A comparison is read up to what cannot carry it on. */
  lemma {:induction false} ComparisonBack(e: Expr, follow: seq<Token>)
    requires Printable(e) && !Extends(Peek(follow), COMPARISON_LEVEL)
    ensures Comparison(Print(e, COMPARISON_LEVEL) + follow) == Ok(e, follow)
    decreases e, Rank(e, COMPARISON_LEVEL)
  {
    hide Primary, PrintBare, ComparisonTail, Printable, FirstOperand, PrintTailOf;
    if Level(e) == COMPARISON_LEVEL {
      ComparisonParts(e);
      if e.Binary? {
        RightOperand(e);
        PrimaryBack(e.right, follow);
      }
      TailBack(e, follow);
      PrimaryBack(FirstOperand(e), PrintTailOf(e) + follow);
      assert Print(e, COMPARISON_LEVEL) + follow == Print(FirstOperand(e), PRIMARY_LEVEL) + (PrintTailOf(e) + follow);
    } else {
      PrimaryBack(e, follow);
      NoTail(e, follow);
    }
  }

  lemma RightOperand(e: Expr)
    requires Printable(e) && e.Binary?
    ensures Printable(e.right)
  {
  }

  lemma NoTail(e: Expr, follow: seq<Token>)
    requires !Extends(Peek(follow), COMPARISON_LEVEL)
    ensures ComparisonTail(e, follow) == Ok(e, follow)
  {
  }

  /** Conjuncts are read one by one; whatever comes behind this one is the loop's to go on with. */
  lemma {:induction false} AndBack(e: Expr, follow: seq<Token>)
    requires Printable(e) && !Extends(Peek(follow), COMPARISON_LEVEL)
    ensures AndExpr(Print(e, AND_LEVEL) + follow) == AndTail(e, follow)
    decreases e, Rank(e, AND_LEVEL)
  {
    hide Comparison, Print, PrintBare, Printable;
    if Level(e) == AND_LEVEL {
      PrintLogical(e);
      var rest := [Keyword("AND")] + Print(e.right, COMPARISON_LEVEL) + follow;
      assert Print(e, AND_LEVEL) + follow == Print(e.left, AND_LEVEL) + rest;
      AndBack(e.left, rest);
      assert rest[1..] == Print(e.right, COMPARISON_LEVEL) + follow;
      ComparisonBack(e.right, follow);
    } else {
      SameSpelling(e, AND_LEVEL);
      ComparisonBack(e, follow);
    }
  }

  /** An expression of this very level, in the middle of its connective. */
  lemma PrintLogical(e: Expr)
    requires Printable(e) && e.Logical?
    ensures Printable(e.left) && Printable(e.right)
    ensures Print(e, Level(e))
         == Print(e.left, Level(e))
             + ([Keyword(if e.connective == Or then "OR" else "AND")] + Print(e.right, Level(e) + 1))
  {
    hide Print, Printable;
    assert Print(e, Level(e)) == PrintBare(e) by {
      BareWithin(e, Level(e));
    }
    PrintLogicalBare(e);
  }

  lemma PrintLogicalBare(e: Expr)
    requires Printable(e) && e.Logical?
    ensures Printable(e.left) && Printable(e.right)
    ensures PrintBare(e)
         == Print(e.left, Level(e))
             + ([Keyword(if e.connective == Or then "OR" else "AND")] + Print(e.right, Level(e) + 1))
  {
    hide Print;
  }

  lemma BareWithin(e: Expr, level: int)
    requires Printable(e) && Level(e) >= level
    ensures Print(e, level) == PrintBare(e)
  {
  }

  /** Asking for the next level changes nothing for an expression of another level. */
  lemma SameSpelling(e: Expr, level: int)
    requires Printable(e) && Level(e) != level
    ensures Print(e, level) == Print(e, level + 1)
  {
    hide PrintBare;
  }

  lemma {:induction false} OrBack(e: Expr, follow: seq<Token>)
    requires Printable(e) && !Extends(Peek(follow), AND_LEVEL)
    ensures OrExpr(Print(e, OR_LEVEL) + follow) == OrTail(e, follow)
    ensures !Extends(Peek(follow), OR_LEVEL) ==> OrTail(e, follow) == Ok(e, follow)
    decreases e, Rank(e, OR_LEVEL)
  {
    hide AndExpr, Print, PrintBare, Printable;
    if Level(e) == OR_LEVEL {
      PrintLogical(e);
      var rest := [Keyword("OR")] + Print(e.right, AND_LEVEL) + follow;
      assert Print(e, OR_LEVEL) + follow == Print(e.left, OR_LEVEL) + rest;
      OrBack(e.left, rest);
      assert rest[1..] == Print(e.right, AND_LEVEL) + follow;
      AndBack(e.right, follow);
    } else {
      SameSpelling(e, OR_LEVEL);
      AndBack(e, follow);
    }
  }

  /** Parsing the tokens of an expression gives it back, and stops where they end. */
  lemma ParsePrint(e: Expr, follow: seq<Token>)
    requires Printable(e) && !Extends(Peek(follow), OR_LEVEL)
    ensures OrExpr(Print(e, OR_LEVEL) + follow) == Ok(e, follow)
  {
    OrBack(e, follow);
  }

  /** Whatever was parsed has a spelling, and parsing that spelling gives it again. */
  lemma PrintParse(ts: seq<Token>, follow: seq<Token>)
    requires OrExpr(ts).Ok? && !Extends(Peek(follow), OR_LEVEL)
    ensures Printable(OrExpr(ts).value)
    ensures OrExpr(Print(OrExpr(ts).value, OR_LEVEL) + follow) == Ok(OrExpr(ts).value, follow)
  {
    ParsePrint(OrExpr(ts).value, follow);
  }

  /** Two expressions with the same tokens are the same. */
  lemma PrintInjective(a: Expr, b: Expr)
    requires Printable(a) && Printable(b) && Print(a, OR_LEVEL) == Print(b, OR_LEVEL)
    ensures a == b
  {
    ParsePrint(a, []);
    ParsePrint(b, []);
  }

  /** BETWEEN means two comparisons of the same operand. */
  lemma BetweenMeans(x: Expr, lo: Expr, hi: Expr, follow: seq<Token>)
    requires Printable(x) && Printable(lo) && Printable(hi) && !Extends(Peek(follow), PRIMARY_LEVEL)
    ensures
      Comparison(Print(x, PRIMARY_LEVEL) + ([Keyword("BETWEEN")] + (Print(lo, PRIMARY_LEVEL)
                 + ([Keyword("AND")] + (Print(hi, PRIMARY_LEVEL) + follow)))))
      == Ok(Logical(And, Binary(Ge, x, lo), Binary(Le, x, hi)), follow)
  {
    hide Primary, Print, Between;
    var behindLo := [Keyword("AND")] + (Print(hi, PRIMARY_LEVEL) + follow);
    var behindX := [Keyword("BETWEEN")] + (Print(lo, PRIMARY_LEVEL) + behindLo);
    PrimaryBack(x, behindX);
    assert behindX[1..] == Print(lo, PRIMARY_LEVEL) + behindLo;
    BetweenBack(x, lo, hi, follow);
  }

  lemma BetweenBack(x: Expr, lo: Expr, hi: Expr, follow: seq<Token>)
    requires Printable(x) && Printable(lo) && Printable(hi) && !Extends(Peek(follow), PRIMARY_LEVEL)
    ensures Between(x, Print(lo, PRIMARY_LEVEL) + ([Keyword("AND")] + (Print(hi, PRIMARY_LEVEL) + follow)))
         == Ok(Logical(And, Binary(Ge, x, lo), Binary(Le, x, hi)), follow)
  {
    hide Primary, Print, Printable;
    var behindLo := [Keyword("AND")] + (Print(hi, PRIMARY_LEVEL) + follow);
    PrimaryBack(lo, behindLo);
    PrimaryBack(hi, follow);
    assert behindLo[1..] == Print(hi, PRIMARY_LEVEL) + follow;
  }
}
