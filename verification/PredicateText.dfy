/** A predicate written as SQL text means the expression that it was written for. */
module PredicateText {
  import opened Tokens
  import opened Lexer
  import opened Predicates
  import opened ParserCursor
  import Grammar
  import Layout

  predicate AllTokens(ts: seq<Token>) { forall i :: 0 <= i < |ts| ==> IsToken(ts[i]) }

  /** Names that are no keywords, and digits that make a number. */
  predicate Spelled(e: Expr) {
    match e
    case Lit(v) => LiteralSpelled(v)
    case Column(name) => IsToken(Ident(name))
    case QualifiedColumn(table, name) => IsToken(Ident(table)) && IsToken(Ident(name))
    case Binary(_, l, r) => Spelled(l) && Spelled(r)
    case IsNull(x, _) => Spelled(x)
    case In(x, values, _) => Spelled(x) && forall i :: 0 <= i < |values| ==> LiteralSpelled(values[i])
    case Logical(_, l, r) => Spelled(l) && Spelled(r)
  }

  predicate LiteralSpelled(v: Literal) { v.NumberLit? ==> IsToken(Number(v.digits)) }

  lemma Concat(a: seq<Token>, b: seq<Token>)
    requires AllTokens(a) && AllTokens(b)
    ensures AllTokens(a + b)
  {
    hide IsToken;
  }

  lemma WordsOfTheGrammar()
    ensures forall w :: w in {"OR", "AND", "IS", "NOT", "NULL", "IN", "BETWEEN", "TRUE", "FALSE"} ==>
              IsToken(Keyword(w))
  {
  }

  lemma LiteralToken(v: Literal)
    requires LiteralSpelled(v)
    ensures IsToken(PrintLiteral(v))
  {
    hide IsKeyword;
    WordsOfTheGrammar();
  }

  lemma {:induction false} TailTokens(values: seq<Literal>)
    requires forall i :: 0 <= i < |values| ==> LiteralSpelled(values[i])
    ensures AllTokens(PrintTail(values))
  {
    hide IsToken, LiteralSpelled, PrintLiteral;
    assert IsToken(Punct(')')) && IsToken(Punct(',')) by {
      Marks();
    }
    if values != [] {
      LiteralToken(values[0]);
      TailTokens(values[1..]);
      Concat([Punct(','), PrintLiteral(values[0])], PrintTail(values[1..]));
    }
  }

  lemma Marks()
    ensures IsToken(Punct('(')) && IsToken(Punct(')')) && IsToken(Punct(',')) && IsToken(Punct('.'))
  {
  }

  lemma {:induction false} PrintTokens(e: Expr, level: int)
    requires Printable(e) && Spelled(e)
    ensures AllTokens(Print(e, level))
    decreases e, 1
  {
    hide IsToken, PrintBare, Spelled, Printable;
    Marks();
    BareTokens(e);
    Concat([Punct('(')], PrintBare(e));
    Concat([Punct('(')] + PrintBare(e), [Punct(')')]);
  }

  lemma {:induction false} BareTokens(e: Expr)
    requires Printable(e) && Spelled(e)
    ensures AllTokens(PrintBare(e))
    decreases e, 0
  {
    hide IsToken, Print, PrintTail, LiteralSpelled, PrintLiteral;
    WordsOfTheGrammar();
    Marks();
    match e
    case Lit(v) =>
      LiteralToken(v);
    case Column(name) =>
    case QualifiedColumn(table, name) =>
    case Binary(op, l, r) =>
      PrintTokens(l, PRIMARY_LEVEL);
      PrintTokens(r, PRIMARY_LEVEL);
      OperatorTokens(op);
      Concat(Print(l, PRIMARY_LEVEL), [Operator(op)]);
      Concat(Print(l, PRIMARY_LEVEL) + [Operator(op)], Print(r, PRIMARY_LEVEL));
    case IsNull(x, negated) =>
      PrintTokens(x, PRIMARY_LEVEL);
      Concat(Print(x, PRIMARY_LEVEL),
             if negated then [Keyword("IS"), Keyword("NOT"), Keyword("NULL")] else [Keyword("IS"), Keyword("NULL")]);
    case In(x, values, negated) =>
      var head := if negated then [Keyword("NOT"), Keyword("IN"), Punct('(')] else [Keyword("IN"), Punct('(')];
      PrintTokens(x, PRIMARY_LEVEL);
      LiteralToken(values[0]);
      TailTokens(values[1..]);
      Concat(Print(x, PRIMARY_LEVEL), head);
      Concat(Print(x, PRIMARY_LEVEL) + head, [PrintLiteral(values[0])]);
      Concat(Print(x, PRIMARY_LEVEL) + head + [PrintLiteral(values[0])], PrintTail(values[1..]));
    case Logical(c, l, r) =>
      var at := if c == Or then OR_LEVEL else AND_LEVEL;
      var word := [Keyword(if c == Or then "OR" else "AND")];
      PrintTokens(l, at);
      PrintTokens(r, at + 1);
      Concat(Print(l, at), word);
      Concat(Print(l, at) + word, Print(r, at + 1));
  }

  lemma OperatorTokens(op: CompareOp)
    ensures IsToken(Operator(op))
  {
  }

  function TextOf(e: Expr): string
    requires Printable(e)
  {
    RenderAll(Print(e, OR_LEVEL))
  }

  /** The text of an expression is read and parsed to that expression, up to the end. */
  lemma TextMeansExpression(e: Expr)
    requires Printable(e) && Spelled(e)
    ensures Lex(TextOf(e)).Ok? && OrExpr(Lex(TextOf(e)).tokens) == Predicates.Ok(e, [Eof])
  {
    hide IsToken, Lex, RenderAll, OrExpr;
    PrintTokens(e, OR_LEVEL);
    LexRender(Print(e, OR_LEVEL));
    ParsePrint(e, [Eof]);
  }

  // ---- What any text means

  /** The text lays out tokens that spell the expression. */
  ghost predicate Means(sql: string, e: Expr) { exists ts :: Layout.Lays(sql, ts) && Grammar.SpellsOr(e, ts) }

  /** Lexer and parser together take a text for an expression exactly when it means that. */
  lemma TextIsParsed(sql: string, e: Expr)
    ensures Means(sql, e) <==> Lex(sql).Ok? && OrExpr(Lex(sql).tokens) == Predicates.Ok(e, [Eof])
  {
    hide Lex, OrExpr, IsToken;
    if Means(sql, e) {
      var ts :| Layout.Lays(sql, ts) && Grammar.SpellsOr(e, ts);
      Layout.LexerExact(sql, ts);
      Grammar.ParserExact(e, ts);
    }
    if Lex(sql).Ok? && OrExpr(Lex(sql).tokens) == Predicates.Ok(e, [Eof]) {
      LexIsTokens(sql);
      var tokens := Lex(sql).tokens;
      var ts := tokens[..|tokens| - 1];
      assert tokens == ts + [Eof];
      Layout.LexerExact(sql, ts);
      Grammar.ParserExact(e, ts);
    }
  }

  lemma OneMeaning(sql: string, a: Expr, b: Expr)
    requires Means(sql, a) && Means(sql, b)
    ensures a == b
  {
    TextIsParsed(sql, a);
    TextIsParsed(sql, b);
  }

  /** What is parsed up to an end token is parsed up to the end. */
  lemma ParsedToEnd(ts: seq<Token>)
    requires Complete(ts) && OrExpr(ts).Ok? && OrExpr(ts).rest != [] && OrExpr(ts).rest[0] == Eof
    ensures OrExpr(ts).rest == [Eof]
  {
    hide OrExpr;
    var n := Grammar.OrSound(ts);
    assert ts[n] == ts[n..][0];
  }

  /** Reads and parses a text: the lexer's loop and the parser's cursor, one behind the other. */
  method ParseText(sql: string) returns (e: Outcome<Expr>)
    ensures Lex(sql).UnexpectedCharacter? ==> e == Raised(Unexpected)
    ensures Lex(sql).Ok? ==>
              match OrExpr(Lex(sql).tokens)
              case Err(x) => e == Raised(x)
              case Ok(v, rest) => e == if Peek(rest) == Eof then Done(v) else Raised(Unexpected)
    ensures forall x :: e == Done(x) <==> Means(sql, x)
    ensures forall x :: Printable(x) && Spelled(x) && TextOf(x) == sql ==> e == Done(x)
  {
    hide Lex, OrExpr, Printable, Spelled, TextOf, IsToken, Means;
    forall x ensures Means(sql, x) <==> Lex(sql).Ok? && OrExpr(Lex(sql).tokens) == Predicates.Ok(x, [Eof]) {
      TextIsParsed(sql, x);
    }
    forall x | Printable(x) && Spelled(x) && TextOf(x) == sql
      ensures Lex(sql).Ok? && OrExpr(Lex(sql).tokens) == Predicates.Ok(x, [Eof])
    {
      TextMeansExpression(x);
    }
    var lexed := Tokenize(sql);
    if lexed.UnexpectedCharacter? {
      return Raised(Unexpected);
    }
    LexIsTokens(sql);
    var parser := new Parser(lexed.tokens);
    e := parser.ParseExpression();
    if e.Done? {
      var last := parser.PeekToken();
      if last == Eof {
        ParsedToEnd(lexed.tokens);
      }
      if last != Eof {
        e := Raised(Unexpected);
      }
    }
  }
}
