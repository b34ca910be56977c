/** The language of predicates, told without a parser, and that the parser accepts exactly it. */
module Grammar {
  import opened Tokens
  import opened Predicates

  /** No two points among the digits. */
  ghost predicate OnePoint(digits: string) {
    !exists i, k :: 0 <= i < k < |digits| && digits[i] == digits[k] == '.'
  }

  lemma {:induction false} PointsCounted(digits: string)
    ensures Points(digits) == 0 <==> forall i :: 0 <= i < |digits| ==> digits[i] != '.'
    ensures Points(digits) <= 1 <==> OnePoint(digits)
  {
    if digits != "" {
      var tail := digits[1..];
      PointsCounted(tail);
      assert forall i {:trigger digits[i]} :: 1 <= i < |digits| ==> digits[i] == tail[i - 1];
      assert forall i {:trigger tail[i]} :: 0 <= i < |tail| ==> tail[i] == digits[i + 1];
      if digits[0] == '.' && Points(tail) > 0 {
        var k :| 0 <= k < |tail| && tail[k] == '.';
        assert digits[0] == digits[k + 1] == '.';
      }
      if !OnePoint(tail) {
        var i, k :| 0 <= i < k < |tail| && tail[i] == tail[k] == '.';
        assert digits[i + 1] == digits[k + 1] == '.';
      }
      if !OnePoint(digits) {
        var i, k :| 0 <= i < k < |digits| && digits[i] == digits[k] == '.';
        assert tail[k - 1] == '.';
        assert i > 0 ==> tail[i - 1] == '.';
      }
    }
  }

  /** A number is read exactly when its digits have one point at most, and raises what `float` raises otherwise. */
  lemma NumberMeans(digits: string, rest: seq<Token>)
    ensures Value([Number(digits)] + rest) == if OnePoint(digits) then Ok(NumberLit(digits), rest) else Err(NotANumber)
  {
    PointsCounted(digits);
    assert ([Number(digits)] + rest)[1..] == rest;
  }

  // ---- the language

  ghost predicate SpellsLiteral(v: Literal, t: Token) {
    match v
    case NumberLit(digits) => t == Number(digits) && OnePoint(digits)
    case TextLit(text) => t == Text(text)
    case BoolLit(b) => t == Keyword(if b then "TRUE" else "FALSE")
    case NullLit => t == Keyword("NULL")
  }

  /** Values with commas between them. */
  ghost predicate SpellsValues(values: seq<Literal>, ts: seq<Token>) {
    && |values| > 0 && |ts| == 2 * |values| - 1
    && (forall i :: 0 <= i < |values| ==> SpellsLiteral(values[i], ts[2 * i]))
    && (forall i :: 0 <= i < |values| - 1 ==> ts[2 * i + 1] == Punct(','))
  }

  /** An atom, or any expression in parentheses. */
  ghost predicate SpellsPrimary(e: Expr, ts: seq<Token>)
    decreases |ts|, 0
  {
    || (e.Lit? && |ts| == 1 && SpellsLiteral(e.literal, ts[0]))
    || (e.Column? && ts == [Ident(e.name)])
    || (e.QualifiedColumn? && ts == [Ident(e.table), Punct('.'), Ident(e.name)])
    || (|ts| >= 2 && ts[0] == Punct('(') && ts[|ts| - 1] == Punct(')') && SpellsOr(e, ts[1..|ts| - 1]))
  }

  /** What a comparison says of its operand. */
  ghost predicate SpellsTail(x: Expr, e: Expr, ts: seq<Token>)
    decreases |ts|, 1
  {
    || (|ts| > 0 && ts[0].Operator? && e.Binary? && e.op == ts[0].op && e.left == x && SpellsPrimary(e.right, ts[1..]))
    || (ts == [Keyword("IS"), Keyword("NULL")] && e == IsNull(x, false))
    || (ts == [Keyword("IS"), Keyword("NOT"), Keyword("NULL")] && e == IsNull(x, true))
    || (e.In? && e.operand == x && SpellsIn(e.values, e.negated, ts))
    || (|ts| > 0 && ts[0] == Keyword("BETWEEN") && SpellsBetween(x, e, ts[1..]))
  }

  ghost predicate SpellsIn(values: seq<Literal>, negated: bool, ts: seq<Token>) {
    var head := if negated then [Keyword("NOT"), Keyword("IN"), Punct('(')] else [Keyword("IN"), Punct('(')];
    && |ts| > |head| && ts[..|head|] == head && ts[|ts| - 1] == Punct(')')
    && SpellsValues(values, ts[|head|..|ts| - 1])
  }

  /** Two bounds, which the same operand is compared with. */
  ghost predicate SpellsBetween(x: Expr, e: Expr, ts: seq<Token>)
    decreases |ts|, 1
  {
    exists i, lo, hi ::
      && 0 <= i < |ts| && ts[i] == Keyword("AND")
      && SpellsPrimary(lo, ts[..i]) && SpellsPrimary(hi, ts[i + 1..])
      && e == Logical(And, Binary(Ge, x, lo), Binary(Le, x, hi))
  }

  ghost predicate SpellsComparison(e: Expr, ts: seq<Token>)
    decreases |ts|, 2
  {
    || SpellsPrimary(e, ts)
    || exists i, x :: 0 < i < |ts| && SpellsPrimary(x, ts[..i]) && SpellsTail(x, e, ts[i..])
  }

  ghost predicate SpellsAnd(e: Expr, ts: seq<Token>)
    decreases |ts|, 3
  {
    || SpellsComparison(e, ts)
    || exists i ::
         && 0 <= i < |ts| && ts[i] == Keyword("AND") && e.Logical? && e.connective == And
         && SpellsAnd(e.left, ts[..i]) && SpellsComparison(e.right, ts[i + 1..])
  }

  ghost predicate SpellsOr(e: Expr, ts: seq<Token>)
    decreases |ts|, 4
  {
    || SpellsAnd(e, ts)
    || exists i ::
         && 0 <= i < |ts| && ts[i] == Keyword("OR") && e.Logical? && e.connective == Or
         && SpellsOr(e.left, ts[..i]) && SpellsAnd(e.right, ts[i + 1..])
  }

  // ---- every sentence is accepted

  lemma SpelledValue(v: Literal, t: Token, follow: seq<Token>)
    requires SpellsLiteral(v, t)
    ensures Value([t] + follow) == Ok(v, follow) && PrintableLiteral(v)
  {
    assert ([t] + follow)[1..] == follow;
    if v.NumberLit? {
      NumberMeans(v.digits, follow);
    }
  }

  lemma {:induction false} SpelledValues(done: seq<Literal>, values: seq<Literal>, ts: seq<Token>, follow: seq<Token>)
    requires done != [] && forall i :: 0 <= i < |done| ==> PrintableLiteral(done[i])
    requires SpellsValues(values, ts)
    ensures ValuesTail(done, [Punct(',')] + ts + ([Punct(')')] + follow)) == Ok(done + values, [Punct(')')] + follow)
    decreases |values|
  {
    hide Value, SpellsLiteral, PrintableLiteral;
    var all := [Punct(',')] + ts + ([Punct(')')] + follow);
    var behind := ts[1..] + ([Punct(')')] + follow);
    assert all[1..] == [ts[0]] + behind;
    SpelledValue(values[0], ts[2 * 0], behind);
    var more := done + [values[0]];
    if |values| == 1 {
      assert behind == [Punct(')')] + follow && more == done + values;
    } else {
      assert ts[2 * 0 + 1] == Punct(',');
      RestSpelled(values, ts);
      SpelledValues(more, values[1..], ts[2..], follow);
      assert behind == [Punct(',')] + ts[2..] + ([Punct(')')] + follow);
      assert more + values[1..] == done + values;
    }
  }

  lemma RestSpelled(values: seq<Literal>, ts: seq<Token>)
    requires SpellsValues(values, ts) && |values| > 1
    ensures SpellsValues(values[1..], ts[2..])
  {
    hide SpellsLiteral;
    forall i | 0 <= i < |values| - 1 ensures SpellsLiteral(values[1..][i], ts[2..][2 * i]) {
      assert SpellsLiteral(values[i + 1], ts[2 * (i + 1)]);
    }
    forall i | 0 <= i < |values| - 2 ensures ts[2..][2 * i + 1] == Punct(',') {
      assert ts[2 * (i + 1) + 1] == Punct(',');
    }
  }

  lemma SpelledList(x: Expr, values: seq<Literal>, negated: bool, list: seq<Token>, follow: seq<Token>)
    requires SpellsValues(values, list)
    ensures InList(x, negated, [Punct('(')] + list + ([Punct(')')] + follow)) == Ok(In(x, values, negated), follow)
  {
    hide Value, SpellsLiteral, PrintableLiteral, ValuesTail;
    var all := [Punct('(')] + list + ([Punct(')')] + follow);
    var behind := list[1..] + ([Punct(')')] + follow);
    assert all[1..] == [list[0]] + behind;
    assert SpellsLiteral(values[0], list[2 * 0]);
    SpelledValue(values[0], list[0], behind);
    assert ([Punct(')')] + follow)[1..] == follow;
    if |values| == 1 {
      assert behind == [Punct(')')] + follow && values == [values[0]];
      NoMoreValues(values, behind);
    } else {
      assert list[2 * 0 + 1] == Punct(',');
      RestSpelled(values, list);
      SpelledValues([values[0]], values[1..], list[2..], follow);
      assert behind == [Punct(',')] + list[2..] + ([Punct(')')] + follow);
      assert [values[0]] + values[1..] == values;
    }
  }

  lemma NoMoreValues(values: seq<Literal>, ts: seq<Token>)
    requires values != [] && forall i :: 0 <= i < |values| ==> PrintableLiteral(values[i])
    requires Peek(ts) != Punct(',')
    ensures ValuesTail(values, ts) == Ok(values, ts)
  {
  }

  lemma {:induction false} PrimaryAccepts(e: Expr, ts: seq<Token>, follow: seq<Token>)
    requires SpellsPrimary(e, ts) && Peek(follow) != Punct('.')
    ensures Primary(ts + follow) == Ok(e, follow)
    decreases |ts|, 0
  {
    hide OrExpr, Value, SpellsLiteral, SpellsOr;
    if e.Lit? && |ts| == 1 && SpellsLiteral(e.literal, ts[0]) {
      LiteralAccepted(e.literal, ts[0], follow);
      assert ts == [ts[0]];
    } else if e.Column? && ts == [Ident(e.name)] {
      assert (ts + follow)[1..] == follow;
    } else if e.QualifiedColumn? && ts == [Ident(e.table), Punct('.'), Ident(e.name)] {
      QualifiedBack(e.table, e.name, follow);
    } else {
      var n := |ts|;
      var inner, behind := ts[1..n - 1], [Punct(')')] + follow;
      assert (ts + follow)[1..] == inner + behind;
      OrAccepts(e, inner, behind);
      StopsAt(e, behind);
      assert behind[1..] == follow;
    }
  }

  lemma LiteralAccepted(v: Literal, t: Token, follow: seq<Token>)
    requires SpellsLiteral(v, t)
    ensures Primary([t] + follow) == Ok(Lit(v), follow)
  {
    SpelledValue(v, t, follow);
    hide Value, OnePoint;
  }

  /** Neither OR nor anything else goes on at a closing parenthesis or at the end. */
  lemma StopsAt(e: Expr, follow: seq<Token>)
    requires Peek(follow) in {Eof, Punct(')')}
    ensures OrTail(e, follow) == Ok(e, follow) && AndTail(e, follow) == Ok(e, follow)
  {
  }

  /** The tokens that end a comparison. */
  ghost predicate Closes(t: Token) { t in {Eof, Punct(')'), Keyword("AND"), Keyword("OR")} }

  lemma ClosedTail(e: Expr, follow: seq<Token>)
    requires Closes(Peek(follow))
    ensures ComparisonTail(e, follow) == Ok(e, follow) && Peek(follow) != Punct('.')
  {
  }

  lemma {:induction false} TailAccepts(x: Expr, e: Expr, ts: seq<Token>, follow: seq<Token>)
    requires SpellsTail(x, e, ts) && Closes(Peek(follow))
    ensures ts != [] && ts[0] != Punct('.') && ComparisonTail(x, ts + follow) == Ok(e, follow)
    decreases |ts|, 1
  {
    hide Primary, SpellsPrimary, InList, Between, SpellsIn, SpellsBetween, ComparisonTail, Closes;
    ClosedTail(x, follow);
    if |ts| > 0 && ts[0].Operator? && e.Binary? && e.op == ts[0].op && e.left == x && SpellsPrimary(e.right, ts[1..]) {
      PrimaryAccepts(e.right, ts[1..], follow);
      OperatorTail(x, e.op, ts + follow);
      assert (ts + follow)[1..] == ts[1..] + follow;
    } else if ts == [Keyword("IS"), Keyword("NULL")] && e == IsNull(x, false) {
      IsNullTail(x, false, follow);
    } else if ts == [Keyword("IS"), Keyword("NOT"), Keyword("NULL")] && e == IsNull(x, true) {
      IsNullTail(x, true, follow);
    } else if e.In? && e.operand == x && SpellsIn(e.values, e.negated, ts) {
      InAccepts(x, e.values, e.negated, ts, follow);
    } else {
      BetweenAccepts(x, e, ts[1..], follow);
      assert (ts + follow)[1..] == ts[1..] + follow;
      BetweenTail(x, ts + follow);
    }
  }

  lemma OperatorTail(x: Expr, op: CompareOp, ts: seq<Token>)
    requires ts != [] && ts[0] == Operator(op)
    ensures Primary(ts[1..]).Ok? ==>
              ComparisonTail(x, ts) == Ok(Binary(op, x, Primary(ts[1..]).value), Primary(ts[1..]).rest)
    ensures Primary(ts[1..]).Err? ==> ComparisonTail(x, ts) == Err(Primary(ts[1..]).error)
  {
  }

  lemma BetweenTail(x: Expr, ts: seq<Token>)
    requires ts != [] && ts[0] == Keyword("BETWEEN")
    ensures ComparisonTail(x, ts) == Between(x, ts[1..])
  {
  }

  lemma InAccepts(x: Expr, values: seq<Literal>, negated: bool, ts: seq<Token>, follow: seq<Token>)
    requires SpellsIn(values, negated, ts)
    ensures ts != [] && ts[0] != Punct('.') && ComparisonTail(x, ts + follow) == Ok(In(x, values, negated), follow)
  {
    hide InList, SpellsValues;
    var n := if negated then 3 else 2;
    var list := ts[n..|ts| - 1];
    SpelledList(x, values, negated, list, follow);
    assert ts[..n][0] == ts[0] && ts[..n][1] == ts[1] && ts[..n][n - 1] == ts[n - 1];
    assert (ts + follow)[n - 1..] == [Punct('(')] + list + ([Punct(')')] + follow);
    if negated {
      assert (ts + follow)[1..][1..] == (ts + follow)[2..];
    }
  }

  lemma {:induction false} BetweenAccepts(x: Expr, e: Expr, ts: seq<Token>, follow: seq<Token>)
    requires SpellsBetween(x, e, ts) && Peek(follow) != Punct('.')
    ensures Between(x, ts + follow) == Ok(e, follow)
    decreases |ts|, 1
  {
    hide Primary, SpellsPrimary;
    var i, lo, hi :|
      && 0 <= i < |ts| && ts[i] == Keyword("AND")
      && SpellsPrimary(lo, ts[..i]) && SpellsPrimary(hi, ts[i + 1..])
      && e == Logical(And, Binary(Ge, x, lo), Binary(Le, x, hi));
    var behind := [Keyword("AND")] + ts[i + 1..] + follow;
    assert ts + follow == ts[..i] + behind;
    PrimaryAccepts(lo, ts[..i], behind);
    assert behind[1..] == ts[i + 1..] + follow;
    PrimaryAccepts(hi, ts[i + 1..], follow);
  }

  lemma {:induction false} ComparisonAccepts(e: Expr, ts: seq<Token>, follow: seq<Token>)
    requires SpellsComparison(e, ts) && Closes(Peek(follow))
    ensures Comparison(ts + follow) == Ok(e, follow)
    decreases |ts|, 2
  {
    hide Primary, SpellsPrimary, SpellsTail, ComparisonTail, Closes;
    ClosedTail(e, follow);
    if SpellsPrimary(e, ts) {
      PrimaryAccepts(e, ts, follow);
    } else {
      var i, x :| 0 < i < |ts| && SpellsPrimary(x, ts[..i]) && SpellsTail(x, e, ts[i..]);
      TailAccepts(x, e, ts[i..], follow);
      PrimaryAccepts(x, ts[..i], ts[i..] + follow);
      assert ts + follow == ts[..i] + (ts[i..] + follow);
    }
  }

  lemma {:induction false} AndAccepts(e: Expr, ts: seq<Token>, follow: seq<Token>)
    requires SpellsAnd(e, ts) && Closes(Peek(follow))
    ensures AndExpr(ts + follow) == AndTail(e, follow)
    decreases |ts|, 3
  {
    hide Comparison, SpellsComparison, Printable, AndExpr, AndTail, Closes, Peek;
    if SpellsComparison(e, ts) {
      ComparisonAccepts(e, ts, follow);
      FirstOperandRead(ts + follow);
    } else {
      var i :|
        && 0 <= i < |ts| && ts[i] == Keyword("AND") && e.Logical? && e.connective == And
        && SpellsAnd(e.left, ts[..i]) && SpellsComparison(e.right, ts[i + 1..]);
      var behind := ts[i..] + follow;
      CutAt(ts, follow, i);
      WordCloses(behind);
      AndAccepts(e.left, ts[..i], behind);
      ComparisonAccepts(e.right, ts[i + 1..], follow);
      OneMoreRead(e.left, behind);
    }
  }

  lemma CutAt(ts: seq<Token>, follow: seq<Token>, i: nat)
    requires i < |ts|
    ensures ts + follow == ts[..i] + (ts[i..] + follow)
    ensures ts[i..] + follow != [] && (ts[i..] + follow)[0] == ts[i]
    ensures (ts[i..] + follow)[1..] == ts[i + 1..] + follow
  {
  }

  lemma WordCloses(ts: seq<Token>)
    requires ts != [] && ts[0] in {Keyword("AND"), Keyword("OR")}
    ensures Closes(Peek(ts)) && (ts[0] == Keyword("OR") ==> Peek(ts) == Keyword("OR"))
  {
  }

  /** What the loops do with a first operand, and with one behind AND or OR. */
  lemma FirstOperandRead(ts: seq<Token>)
    ensures Comparison(ts).Ok? ==> AndExpr(ts) == AndTail(Comparison(ts).value, Comparison(ts).rest)
    ensures AndExpr(ts).Ok? ==> OrExpr(ts) == OrTail(AndExpr(ts).value, AndExpr(ts).rest)
  {
    hide Comparison, AndTail, OrTail, Printable;
  }

  lemma OneMoreRead(left: Expr, ts: seq<Token>)
    requires ts != []
    ensures ts[0] == Keyword("AND") && Comparison(ts[1..]).Ok? ==>
              AndTail(left, ts) == AndTail(Logical(And, left, Comparison(ts[1..]).value), Comparison(ts[1..]).rest)
    ensures ts[0] == Keyword("OR") && AndExpr(ts[1..]).Ok? ==>
              OrTail(left, ts) == OrTail(Logical(Or, left, AndExpr(ts[1..]).value), AndExpr(ts[1..]).rest)
  {
    hide Comparison, AndExpr, Printable;
  }

  lemma {:induction false} OrAccepts(e: Expr, ts: seq<Token>, follow: seq<Token>)
    requires SpellsOr(e, ts) && Peek(follow) in {Eof, Punct(')'), Keyword("OR")}
    ensures OrExpr(ts + follow) == OrTail(e, follow)
    decreases |ts|, 4
  {
    hide AndExpr, SpellsAnd, Printable, OrExpr, OrTail, Peek, Closes, AndTail;
    EndCloses(e, follow);
    if SpellsAnd(e, ts) {
      AndAccepts(e, ts, follow);
      FirstOperandRead(ts + follow);
    } else {
      var i :|
        && 0 <= i < |ts| && ts[i] == Keyword("OR") && e.Logical? && e.connective == Or
        && SpellsOr(e.left, ts[..i]) && SpellsAnd(e.right, ts[i + 1..]);
      var behind := ts[i..] + follow;
      CutAt(ts, follow, i);
      WordCloses(behind);
      OrAccepts(e.left, ts[..i], behind);
      EndCloses(e.right, follow);
      AndAccepts(e.right, ts[i + 1..], follow);
      OneMoreRead(e.left, behind);
    }
  }

  /** What ends a disjunct ends a conjunction. */
  lemma EndCloses(e: Expr, follow: seq<Token>)
    requires Peek(follow) in {Eof, Punct(')'), Keyword("OR")}
    ensures Closes(Peek(follow)) && AndTail(e, follow) == Ok(e, follow)
  {
  }

  // ---- nothing else is accepted

  lemma ValueSound(ts: seq<Token>)
    requires Value(ts).Ok?
    ensures ts != [] && SpellsLiteral(Value(ts).value, ts[0]) && Value(ts).rest == ts[1..]
  {
    if ts != [] && ts[0].Number? {
      PointsCounted(ts[0].digits);
    }
  }

  /** Commas, each with a value behind it. */
  ghost predicate SpellsMore(values: seq<Literal>, ts: seq<Token>) {
    && |ts| == 2 * |values|
    && (forall i :: 0 <= i < |values| ==> ts[2 * i] == Punct(',') && SpellsLiteral(values[i], ts[2 * i + 1]))
  }

  lemma {:induction false} ValuesTailSound(values: seq<Literal>, ts: seq<Token>) returns (more: seq<Literal>)
    requires values != [] && forall i :: 0 <= i < |values| ==> PrintableLiteral(values[i])
    requires ValuesTail(values, ts).Ok?
    ensures 2 * |more| <= |ts| && SpellsMore(more, ts[..2 * |more|])
    ensures ValuesTail(values, ts) == Ok(values + more, ts[2 * |more|..])
    decreases |ts|
  {
    hide Value, SpellsLiteral, PrintableLiteral, SpellsMore;
    if Peek(ts) != Punct(',') {
      more := [];
      assert values + more == values;
      assert SpellsMore(more, ts[..0]) by {
        NoMore();
      }
    } else {
      ValueSound(ts[1..]);
      var v, behind := Value(ts[1..]).value, ts[2..];
      assert ts[1..][1..] == behind && ts[1..][0] == ts[1];
      var rest := ValuesTailSound(values + [v], behind);
      more := [v] + rest;
      OneMore(v, rest, ts[1], behind[..2 * |rest|]);
      MoreBehind(values, v, rest, ts);
    }
  }

  lemma NoMore()
    ensures SpellsMore([], [])
  {
  }

  lemma MoreBehind(values: seq<Literal>, v: Literal, rest: seq<Literal>, ts: seq<Token>)
    requires 2 + 2 * |rest| <= |ts| && ts[0] == Punct(',')
    ensures values + [v] + rest == values + ([v] + rest)
    ensures ts[2..][2 * |rest|..] == ts[2 * |[v] + rest|..]
    ensures ts[..2 * |[v] + rest|] == [Punct(','), ts[1]] + ts[2..][..2 * |rest|]
  {
  }

  lemma OneMore(v: Literal, values: seq<Literal>, t: Token, ts: seq<Token>)
    requires SpellsLiteral(v, t) && SpellsMore(values, ts)
    ensures SpellsMore([v] + values, [Punct(','), t] + ts)
  {
    hide SpellsLiteral;
    var all, more := [Punct(','), t] + ts, [v] + values;
    forall i | 0 <= i < |more|
      ensures all[2 * i] == Punct(',') && SpellsLiteral(more[i], all[2 * i + 1])
    {
      if i > 0 {
        assert all[2 * i] == ts[2 * (i - 1)] && all[2 * i + 1] == ts[2 * (i - 1) + 1];
      }
    }
  }

  lemma ValuesSound(ts: seq<Token>) returns (n: nat)
    requires Values(ts).Ok?
    ensures n <= |ts| && Values(ts).rest == ts[n..] && SpellsValues(Values(ts).value, ts[..n])
  {
    hide Value, SpellsLiteral, PrintableLiteral, ValuesTail;
    ValueSound(ts);
    var v := Value(ts).value;
    var more := ValuesTailSound([v], ts[1..]);
    n := 1 + 2 * |more|;
    assert ts[1..][2 * |more|..] == ts[n..];
    var values, list := [v] + more, ts[..n];
    forall i | 0 <= i < |values| ensures SpellsLiteral(values[i], list[2 * i]) {
      if i > 0 {
        assert ts[1..][..2 * |more|][2 * (i - 1) + 1] == list[2 * i];
      }
    }
    forall i | 0 <= i < |values| - 1 ensures list[2 * i + 1] == Punct(',') {
      assert ts[1..][..2 * |more|][2 * i] == list[2 * i + 1];
    }
  }

  lemma {:induction false} PrimarySound(ts: seq<Token>) returns (n: nat)
    requires Primary(ts).Ok?
    ensures n <= |ts| && Primary(ts).rest == ts[n..] && SpellsPrimary(Primary(ts).value, ts[..n])
    decreases |ts|, 0
  {
    hide OrExpr, Value, SpellsLiteral, SpellsOr;
    if Peek(ts).Ident? {
      n := if Peek(ts[1..]) != Punct('.') then 1 else 3;
    } else if Peek(ts) == Punct('(') {
      var k := OrSound(ts[1..]);
      var rest := OrExpr(ts[1..]).rest;
      n := k + 2;
      assert rest == ts[1 + k..] && rest[0] == ts[1 + k];
      assert rest[1..] == ts[n..];
      assert ts[..n][1..n - 1] == ts[1..][..k];
    } else {
      ValueSound(ts);
      n := 1;
    }
  }

  lemma InSound(x: Expr, negated: bool, ts: seq<Token>, head: nat) returns (n: nat)
    requires head == (if negated then 2 else 1) && |ts| >= head && InList(x, negated, ts[head..]).Ok?
    requires ts[..head] == if negated then [Keyword("NOT"), Keyword("IN")] else [Keyword("IN")]
    ensures n <= |ts| && InList(x, negated, ts[head..]).rest == ts[n..]
    ensures InList(x, negated, ts[head..]).value.In? && InList(x, negated, ts[head..]).value.operand == x
    ensures InList(x, negated, ts[head..]).value.negated == negated
    ensures SpellsIn(InList(x, negated, ts[head..]).value.values, negated, ts[..n])
  {
    hide Values, SpellsValues;
    var list := ts[head..];
    var k := ValuesSound(list[1..]);
    n := head + k + 2;
    var rest := Values(list[1..]).rest;
    assert rest == list[1..][k..] && rest[0] == ts[head + 1 + k] && rest[1..] == ts[n..];
    var all := ts[..n];
    var full := if negated then [Keyword("NOT"), Keyword("IN"), Punct('(')] else [Keyword("IN"), Punct('(')];
    assert all[..head + 1] == ts[..head] + [ts[head]];
    assert ts[head] == list[0] == Punct('(');
    assert all[..|full|] == full;
    assert all[|full|..n - 1] == list[1..][..k];
  }

  lemma {:induction false} BetweenSound(x: Expr, ts: seq<Token>) returns (n: nat)
    requires Between(x, ts).Ok?
    ensures n <= |ts| && Between(x, ts).rest == ts[n..] && SpellsBetween(x, Between(x, ts).value, ts[..n])
    decreases |ts|, 1
  {
    hide Primary, SpellsPrimary;
    var i := PrimarySound(ts);
    var rest := Primary(ts).rest;
    var k := PrimarySound(rest[1..]);
    n := i + 1 + k;
    assert rest[0] == ts[i] && rest[1..][k..] == ts[n..];
    assert ts[..n][..i] == ts[..i] && ts[..n][i + 1..] == rest[1..][..k];
    assert ts[..n][i] == Keyword("AND");
    var lo, hi := Primary(ts).value, Primary(rest[1..]).value;
    assert SpellsPrimary(lo, ts[..n][..i]) && SpellsPrimary(hi, ts[..n][i + 1..]);
  }

  lemma {:induction false} TailSound(x: Expr, ts: seq<Token>) returns (n: nat)
    requires ComparisonTail(x, ts).Ok?
    ensures n <= |ts| && ComparisonTail(x, ts).rest == ts[n..]
    ensures if n == 0 then ComparisonTail(x, ts).value == x else SpellsTail(x, ComparisonTail(x, ts).value, ts[..n])
    decreases |ts|, 1
  {
    hide Primary, SpellsPrimary, InList, Between, SpellsIn, SpellsBetween, NullTest, Printable;
    if Peek(ts) == Keyword("IS") {
      n := NullTestSound(x, ts);
    } else if Peek(ts) == Keyword("NOT") || Peek(ts) == Keyword("IN") {
      n := InTailSound(x, ts);
    } else if Peek(ts) == Keyword("BETWEEN") {
      var k := BetweenSound(x, ts[1..]);
      n := k + 1;
      assert ts[..n][1..] == ts[1..][..k] && ts[1..][k..] == ts[n..];
    } else if Peek(ts).Operator? {
      var k := PrimarySound(ts[1..]);
      n := k + 1;
      OperatorTail(x, ts[0].op, ts);
      assert ts[..n][1..] == ts[1..][..k] && ts[1..][k..] == ts[n..];
    } else {
      n := 0;
    }
  }

  lemma NullTestSound(x: Expr, ts: seq<Token>) returns (n: nat)
    requires ts != [] && ts[0] == Keyword("IS") && ComparisonTail(x, ts).Ok?
    ensures 0 < n <= |ts| && ComparisonTail(x, ts).rest == ts[n..]
    ensures || (ts[..n] == [Keyword("IS"), Keyword("NULL")] && ComparisonTail(x, ts).value == IsNull(x, false))
            || (&& ts[..n] == [Keyword("IS"), Keyword("NOT"), Keyword("NULL")]
                && ComparisonTail(x, ts).value == IsNull(x, true))
  {
    assert ComparisonTail(x, ts) == NullTest(x, ts[1..]);
    if Peek(ts[1..]) == Keyword("NOT") {
      n := 3;
      assert ts[1..][1..] == ts[2..] && ts[2] == Keyword("NULL") && ts[2..][1..] == ts[3..];
    } else {
      n := 2;
      assert ts[1..][1..] == ts[2..] && ts[1] == Keyword("NULL");
    }
  }

  lemma InTailSound(x: Expr, ts: seq<Token>) returns (n: nat)
    requires ts != [] && (ts[0] == Keyword("NOT") || ts[0] == Keyword("IN")) && ComparisonTail(x, ts).Ok?
    ensures 0 < n <= |ts| && ComparisonTail(x, ts).rest == ts[n..]
    ensures
      var e := ComparisonTail(x, ts).value;
      e.In? && e.operand == x && SpellsIn(e.values, e.negated, ts[..n])
  {
    hide InList, SpellsIn, Printable;
    if ts[0] == Keyword("NOT") {
      assert ts[1..][1..] == ts[2..] && ts[..2] == [Keyword("NOT"), Keyword("IN")];
      n := InSound(x, true, ts, 2);
      SpellsInLong(ComparisonTail(x, ts).value.values, true, ts[..n]);
    } else {
      assert ts[..1] == [Keyword("IN")];
      n := InSound(x, false, ts, 1);
      SpellsInLong(ComparisonTail(x, ts).value.values, false, ts[..n]);
    }
  }

  lemma SpellsInLong(values: seq<Literal>, negated: bool, ts: seq<Token>)
    requires SpellsIn(values, negated, ts)
    ensures |ts| > 2
  {
    hide SpellsValues;
  }

  lemma {:induction false} ComparisonSound(ts: seq<Token>) returns (n: nat)
    requires Comparison(ts).Ok?
    ensures n <= |ts| && Comparison(ts).rest == ts[n..] && SpellsComparison(Comparison(ts).value, ts[..n])
    decreases |ts|, 2
  {
    hide Primary, SpellsPrimary, SpellsTail, ComparisonTail;
    var i := PrimarySound(ts);
    var x, rest := Primary(ts).value, Primary(ts).rest;
    var k := TailSound(x, rest);
    n := i + k;
    assert rest[k..] == ts[n..];
    if k > 0 {
      assert ts[..n][..i] == ts[..i] && ts[..n][i..] == rest[..k];
      SpelledSomething(x, ts[..i]);
    }
  }

  lemma SpelledSomething(e: Expr, ts: seq<Token>)
    requires SpellsPrimary(e, ts)
    ensures ts != []
  {
    hide SpellsOr, SpellsLiteral;
  }

  lemma {:induction false} AndTailSound(left: Expr, ts: seq<Token>, at: nat) returns (n: nat)
    requires at <= |ts| && SpellsAnd(left, ts[..at]) && Printable(left) && AndTail(left, ts[at..]).Ok?
    ensures at <= n <= |ts| && AndTail(left, ts[at..]).rest == ts[n..]
    ensures SpellsAnd(AndTail(left, ts[at..]).value, ts[..n])
    decreases |ts| - at, 3
  {
    hide Comparison, SpellsComparison;
    var rest := ts[at..];
    if Peek(rest) != Keyword("AND") {
      n := at;
    } else {
      var k := ComparisonSound(rest[1..]);
      var right := Comparison(rest[1..]).value;
      var next := at + 1 + k;
      assert rest[1..][k..] == ts[next..];
      var e, all := Logical(And, left, right), ts[..next];
      assert all[..at] == ts[..at] && all[at + 1..] == rest[1..][..k] && all[at] == Keyword("AND");
      assert SpellsAnd(e.left, all[..at]) && SpellsComparison(e.right, all[at + 1..]);
      n := AndTailSound(e, ts, next);
    }
  }

  lemma {:induction false} AndSound(ts: seq<Token>) returns (n: nat)
    requires AndExpr(ts).Ok?
    ensures n <= |ts| && AndExpr(ts).rest == ts[n..] && SpellsAnd(AndExpr(ts).value, ts[..n])
    decreases |ts|, 4
  {
    hide Comparison, SpellsComparison, AndTail;
    var k := ComparisonSound(ts);
    n := AndTailSound(Comparison(ts).value, ts, k);
  }

  lemma {:induction false} OrTailSound(left: Expr, ts: seq<Token>, at: nat) returns (n: nat)
    requires at <= |ts| && SpellsOr(left, ts[..at]) && Printable(left) && OrTail(left, ts[at..]).Ok?
    ensures at <= n <= |ts| && OrTail(left, ts[at..]).rest == ts[n..]
    ensures SpellsOr(OrTail(left, ts[at..]).value, ts[..n])
    decreases |ts| - at, 5
  {
    hide AndExpr, SpellsAnd;
    var rest := ts[at..];
    if Peek(rest) != Keyword("OR") {
      n := at;
    } else {
      var k := AndSound(rest[1..]);
      var right := AndExpr(rest[1..]).value;
      var next := at + 1 + k;
      assert rest[1..][k..] == ts[next..];
      var e, all := Logical(Or, left, right), ts[..next];
      assert all[..at] == ts[..at] && all[at + 1..] == rest[1..][..k] && all[at] == Keyword("OR");
      assert SpellsOr(e.left, all[..at]) && SpellsAnd(e.right, all[at + 1..]);
      n := OrTailSound(e, ts, next);
    }
  }

  lemma {:induction false} OrSound(ts: seq<Token>) returns (n: nat)
    requires OrExpr(ts).Ok?
    ensures n <= |ts| && OrExpr(ts).rest == ts[n..] && SpellsOr(OrExpr(ts).value, ts[..n])
    decreases |ts|, 6
  {
    hide AndExpr, SpellsAnd, OrTail;
    var k := AndSound(ts);
    n := OrTailSound(AndExpr(ts).value, ts, k);
  }

  /** The parser accepts exactly the sentences of the grammar, up to their end, as what they spell. */
  lemma ParserExact(e: Expr, ts: seq<Token>)
    ensures OrExpr(ts + [Eof]) == Ok(e, [Eof]) <==> SpellsOr(e, ts)
  {
    hide OrExpr, SpellsOr;
    if SpellsOr(e, ts) {
      OrAccepts(e, ts, [Eof]);
      StopsAt(e, [Eof]);
    }
    if OrExpr(ts + [Eof]) == Ok(e, [Eof]) {
      var n := OrSound(ts + [Eof]);
      assert |(ts + [Eof])[n..]| == 1;
      assert (ts + [Eof])[..n] == ts;
    }
  }

  /** So no tokens spell two expressions. */
  lemma Unambiguous(a: Expr, b: Expr, ts: seq<Token>)
    requires SpellsOr(a, ts) && SpellsOr(b, ts)
    ensures a == b
  {
    ParserExact(a, ts);
    ParserExact(b, ts);
  }
}
