/** The recursive-descent parser: a cursor over the tokens, moved step by step. */
module ParserCursor {
  import opened Tokens
  import opened Predicates
  import Grammar

  datatype Outcome<+T> = Done(value: T) | Raised(error: Error)

  class Parser {
    const tokens: seq<Token>
    var pos: nat

    /** `parse` puts an end token behind all others, and the cursor never leaves the list. */
    ghost predicate Valid()
      reads this
    {
      pos < |tokens| && tokens[|tokens| - 1] == Eof
    }

    ghost function Left(): (ts: seq<Token>)
      requires Valid()
      reads this
      ensures ts != []
    {
      tokens[pos..]
    }

    constructor (tokens: seq<Token>)
      requires tokens != [] && tokens[|tokens| - 1] == Eof
      ensures Valid() && Left() == tokens
    {
      this.tokens, pos := tokens, 0;
    }

    /** The method did what the grammar function says of the tokens that were left. */
    ghost predicate Did<T>(was: Parsed<T>, now: Outcome<T>)
      reads this
    {
      Valid() && match was case Err(x) => now == Raised(x) case Ok(v, rest) => now == Done(v) && Left() == rest
    }

    method PeekToken() returns (t: Token)
      requires Valid()
      ensures t == Peek(Left())
    {
      t := tokens[if pos < |tokens| - 1 then pos else |tokens| - 1];
    }

    /** Moves to the next token; the end token is never passed. */
    method Advance() returns (t: Token)
      requires Valid()
      modifies this`pos
      ensures Valid() && t == Peek(old(Left()))
      ensures Left() == if t == Eof && |old(Left())| == 1 then old(Left()) else old(Left())[1..]
    {
      t := PeekToken();
      if pos < |tokens| - 1 {
        pos := pos + 1;
      }
    }

    /** Takes the next token if it is this one, which is not the end token. */
    method Match(t: Token) returns (taken: bool)
      requires Valid() && t != Eof
      modifies this`pos
      ensures Valid() && taken == (Peek(old(Left())) == t)
      ensures Left() == if taken then old(Left())[1..] else old(Left())
    {
      var next := PeekToken();
      taken := next == t;
      if taken {
        next := Advance();
      }
    }

    method ParseExpression() returns (e: Outcome<Expr>)
      requires Valid()
      modifies this`pos
      ensures Did(OrExpr(old(Left())), e)
      decreases |Left()|, 3
    {
      hide Left, Valid, AndExpr, Printable;
      ghost var start := Left();
      e := ParseAndExpression();
      if e.Raised? {
        return;
      }
      var left := e.value;
      ghost var before := Left();
      var more := Match(Keyword("OR"));
      assert more ==> before == [Keyword("OR")] + Left();
      while more
        invariant Valid() && |Left()| < |start|
        invariant OrExpr(start) == if more then OrTail(left, [Keyword("OR")] + Left()) else OrTail(left, Left())
        invariant !more ==> Peek(Left()) != Keyword("OR")
        decreases |Left()|, more
      {
        assert ([Keyword("OR")] + Left())[1..] == Left();
        var right := ParseAndExpression();
        if right.Raised? {
          return right;
        }
        left := Logical(Or, left, right.value);
        before := Left();
        more := Match(Keyword("OR"));
        assert more ==> before == [Keyword("OR")] + Left();
      }
      e := Done(left);
    }

    method ParseAndExpression() returns (e: Outcome<Expr>)
      requires Valid()
      modifies this`pos
      ensures Did(AndExpr(old(Left())), e)
      decreases |Left()|, 2
    {
      hide Left, Valid, Comparison, Printable;
      ghost var start := Left();
      e := ParseComparison();
      if e.Raised? {
        return;
      }
      var left := e.value;
      ghost var before := Left();
      var more := Match(Keyword("AND"));
      assert more ==> before == [Keyword("AND")] + Left();
      while more
        invariant Valid() && |Left()| < |start|
        invariant AndExpr(start) == if more then AndTail(left, [Keyword("AND")] + Left()) else AndTail(left, Left())
        invariant !more ==> Peek(Left()) != Keyword("AND")
        decreases |Left()|, more
      {
        assert ([Keyword("AND")] + Left())[1..] == Left();
        var right := ParseComparison();
        if right.Raised? {
          return right;
        }
        left := Logical(And, left, right.value);
        before := Left();
        more := Match(Keyword("AND"));
        assert more ==> before == [Keyword("AND")] + Left();
      }
      e := Done(left);
    }

    method ParseComparison() returns (e: Outcome<Expr>)
      requires Valid()
      modifies this`pos
      ensures Did(Comparison(old(Left())), e)
      decreases |Left()|, 1
    {
      hide Left, Valid, Primary, Printable, ComparisonTail;
      e := ParsePrimary();
      if e.Done? {
        e := ParseComparisonTail(e.value);
      }
    }

    method ParseComparisonTail(left: Expr) returns (e: Outcome<Expr>)
      requires Valid()
      modifies this`pos
      ensures Did(ComparisonTail(left, old(Left())), e)
      decreases |Left()|, 1
    {
      hide Left, Valid, Primary, Printable, InList, Between, NullTest;
      var taken := Match(Keyword("IS"));
      if taken {
        e := ParseNullTest(left);
        return;
      }

      taken := Match(Keyword("NOT"));
      if taken {
        taken := Match(Keyword("IN"));
        if !taken {
          return Raised(Unexpected);
        }
        e := ParseInList(left, true);
        return;
      }

      taken := Match(Keyword("IN"));
      if taken {
        e := ParseInList(left, false);
        return;
      }

      taken := Match(Keyword("BETWEEN"));
      if taken {
        e := ParseBetween(left);
        return;
      }

      var token := PeekToken();
      if token.Operator? {
        token := Advance();
        var right := ParsePrimary();
        return if right.Raised? then right else Done(Binary(token.op, left, right.value));
      }
      e := Done(left);
    }

    /** What follows IS. */
    method ParseNullTest(left: Expr) returns (e: Outcome<Expr>)
      requires Valid()
      modifies this`pos
      ensures Did(NullTest(left, old(Left())), e)
    {
      hide Left, Valid, Printable;
      var negated := Match(Keyword("NOT"));
      var taken := Match(Keyword("NULL"));
      e := if taken then Done(IsNull(left, negated)) else Raised(Unexpected);
    }

    /** The bounds of BETWEEN, which are compared with the same operand. */
    method ParseBetween(left: Expr) returns (e: Outcome<Expr>)
      requires Valid()
      modifies this`pos
      ensures Did(Between(left, old(Left())), e)
      decreases |Left()|, 1
    {
      hide Left, Valid, Primary, Printable;
      var lo := ParsePrimary();
      if lo.Raised? {
        return lo;
      }
      var taken := Match(Keyword("AND"));
      if !taken {
        return Raised(Unexpected);
      }
      var hi := ParsePrimary();
      return if hi.Raised? then hi
             else Done(Logical(And, Binary(Ge, left, lo.value), Binary(Le, left, hi.value)));
    }

    method ParseInList(left: Expr, negated: bool) returns (e: Outcome<Expr>)
      requires Valid()
      modifies this`pos
      ensures Did(InList(left, negated, old(Left())), e)
    {
      hide Left, Valid, Values, PrintableLiteral, Printable;
      var taken := Match(Punct('('));
      if !taken {
        return Raised(Unexpected);
      }
      var values := ParseValues();
      if values.Raised? {
        return Raised(values.error);
      }
      taken := Match(Punct(')'));
      e := if taken then Done(In(left, values.value, negated)) else Raised(Unexpected);
    }

    /** One value, and more as long as commas follow. */
    method ParseValues() returns (r: Outcome<seq<Literal>>)
      requires Valid()
      modifies this`pos
      ensures Did(Values(old(Left())), r)
    {
      hide Left, Valid, Value, PrintableLiteral, Grammar.OnePoint;
      var first := ParseValue();
      if first.Raised? {
        return Raised(first.error);
      }
      var values := [first.value];
      ghost var start := Left();
      var more := Match(Punct(','));
      assert more ==> start == [Punct(',')] + Left();
      while more
        invariant Valid() && values != [] && forall i :: 0 <= i < |values| ==> PrintableLiteral(values[i])
        invariant ValuesTail([first.value], start)
               == if more then ValuesTail(values, [Punct(',')] + Left()) else ValuesTail(values, Left())
        invariant !more ==> Peek(Left()) != Punct(',')
        decreases |Left()|, more
      {
        assert ([Punct(',')] + Left())[1..] == Left();
        var next := ParseValue();
        if next.Raised? {
          return Raised(next.error);
        }
        values := values + [next.value];
        ghost var before := Left();
        more := Match(Punct(','));
        assert more ==> before == [Punct(',')] + Left();
      }
      r := Done(values);
    }

    /** A literal; the token is taken before its digits are converted. */
    method ParseValue() returns (v: Outcome<Literal>)
      requires Valid()
      modifies this`pos
      ensures Did(Value(old(Left())), v)
      ensures
        match Peek(old(Left()))
        case Number(digits) => v == if Grammar.OnePoint(digits) then Done(NumberLit(digits)) else Raised(NotANumber)
        case Text(text) => v == Done(TextLit(text))
        case Keyword(word) =>
          v == (if word == "TRUE" then Done(BoolLit(true))
                else if word == "FALSE" then Done(BoolLit(false))
                else if word == "NULL" then Done(NullLit)
                else Raised(Unexpected))
        case _ => v == Raised(Unexpected)
    {
      var token := PeekToken();
      match token
      case Number(digits) =>
        token := Advance();
        Grammar.PointsCounted(digits);
        v := if Converts(digits) then Done(NumberLit(digits)) else Raised(NotANumber);
      case Text(text) =>
        token := Advance();
        v := Done(TextLit(text));
      case Keyword(word) =>
        if word == "TRUE" || word == "FALSE" {
          token := Advance();
          v := Done(BoolLit(word == "TRUE"));
        } else if word == "NULL" {
          token := Advance();
          v := Done(NullLit);
        } else {
          v := Raised(Unexpected);
        }
      case _ =>
        v := Raised(Unexpected);
    }

    method ParsePrimary() returns (e: Outcome<Expr>)
      requires Valid()
      modifies this`pos
      ensures Did(Primary(old(Left())), e)
      decreases |Left()|, 0
    {
      hide Left, Valid, OrExpr, Value, Printable;
      ghost var ts := Left();
      var token := PeekToken();
      if token.Ident? {
        token := Advance();
        var taken := Match(Punct('.'));
        if !taken {
          return Done(Column(token.name));
        }
        assert Left() == ts[2..];
        var column := PeekToken();
        if !column.Ident? {
          return Raised(Unexpected);
        }
        column := Advance();
        assert Left() == ts[3..];
        return Done(QualifiedColumn(token.name, column.name));
      }
      if token == Punct('(') {
        token := Advance();
        e := ParseExpression();
        if e.Raised? {
          return;
        }
        var taken := Match(Punct(')'));
        return if taken then e else Raised(Unexpected);
      }
      if token.Punct? {
        return Raised(Unexpected);
      }
      var v := ParseValue();
      return if v.Raised? then Raised(v.error) else Done(Lit(v.value));
    }
  }
}
