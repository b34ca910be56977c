/** From SQL text to tokens, and back to text: characters are classified as ASCII does. */
module Lexer {
  import opened Bytes
  import opened Tokens

  /** A character that starts no token is an error. */
  datatype Lexed = Ok(tokens: seq<Token>) | UnexpectedCharacter

  const KEYWORDS_A: set<string> := {
    "CREATE", "TABLE", "IF", "NOT", "EXISTS", "DROP", "INSERT", "INTO", "VALUES", "SELECT", "FROM", "WHERE",
    "ORDER", "BY", "ASC", "DESC", "LIMIT", "OFFSET", "GROUP", "UPDATE", "SET", "DELETE", "AND", "OR" }

  const KEYWORDS_B: set<string> := {
    "NULL", "IS", "IN", "BETWEEN", "TRUE", "FALSE", "PRIMARY", "KEY", "UNIQUE", "CHECKPOINT", "BEGIN",
    "TRANSACTION", "COMMIT", "END", "ROLLBACK", "INT", "FLOAT", "TEXT", "BOOL", "INTEGER", "REAL" }

  const KEYWORDS_C: set<string> := {
    "VARCHAR", "BOOLEAN", "AVG", "SUM", "COUNT", "AS", "JOIN", "ON", "LEFT", "RIGHT", "INNER", "OUTER", "CROSS",
    "NULLS", "FIRST", "LAST", "EXPLAIN" }

  predicate IsKeyword(word: string) { word in KEYWORDS_A || word in KEYWORDS_B || word in KEYWORDS_C }

  predicate IsSpace(c: char) { c == ' ' || c == '\t' || c == '\r' || c == '\n' }

  predicate IsDigit(c: char) { '0' <= c <= '9' }

  predicate IsUpper(c: char) { 'A' <= c <= 'Z' }

  predicate IsLower(c: char) { 'a' <= c <= 'z' }

  predicate StartsWord(c: char) { IsUpper(c) || IsLower(c) || c == '_' }

  predicate InWord(c: char) { StartsWord(c) || IsDigit(c) }

  predicate InNumber(c: char) { IsDigit(c) || c == '.' }

  predicate NotNewline(c: char) { c != '\n' }

  predicate IsMark(c: char) { c == '(' || c == ')' || c == ',' || c == ';' || c == '*' || c == '.' }

  function UpperChar(c: char): char { if IsLower(c) then 'A' + (c - 'a') else c }

  function Upper(s: string): (r: string)
    ensures |r| == |s| && forall i :: 0 <= i < |s| ==> r[i] == UpperChar(s[i])
  {
    seq(|s|, i requires 0 <= i < |s| => UpperChar(s[i]))
  }

  /** How many characters at the start are of this kind. */
  function Leading(s: string, kind: char -> bool): (n: nat)
    ensures n <= |s| && forall i :: 0 <= i < n ==> kind(s[i])
    ensures n < |s| ==> !kind(s[n])
  {
    if s == "" || !kind(s[0]) then 0 else 1 + Leading(s[1..], kind)
  }

  /**
    * The text up to the closing quote, in which two quotes stand for one, and what is behind it; the end of input
    * closes too.
    */
  function Quoted(s: string): (r: (string, string))
    ensures |r.1| <= |s|
  {
    if s == "" then ("", "")
    else if s[0] != '\'' then var (text, rest) := Quoted(s[1..]); ([s[0]] + text, rest)
    else if |s| > 1 && s[1] == '\'' then var (text, rest) := Quoted(s[2..]); (['\''] + text, rest)
    else ("", s[1..])
  }

  predicate StartsNumber(s: string) {
    s != "" && (IsDigit(s[0]) || (s[0] == '.' && |s| > 1 && IsDigit(s[1])))
  }

  /** The operator at the start, the longer ones first. */
  function OperatorAt(s: string): Option<CompareOp> {
    if "<>" <= s then Some(Ne)
    else if "<=" <= s then Some(Le)
    else if ">=" <= s then Some(Ge)
    else if "=" <= s then Some(Eq)
    else if "<" <= s then Some(Lt)
    else if ">" <= s then Some(Gt)
    else None
  }

  function Spelling(op: CompareOp): (s: string)
    ensures 1 <= |s| <= 2
  {
    match op case Eq => "=" case Ne => "<>" case Lt => "<" case Le => "<=" case Gt => ">" case Ge => ">="
  }

  lemma OperatorSpelling(s: string)
    requires OperatorAt(s).Some?
    ensures Spelling(OperatorAt(s).value) <= s
  {
  }

  function WordToken(word: string): Token {
    if IsKeyword(Upper(word)) then Keyword(Upper(word)) else Ident(word)
  }

  /** The token at the start of `s`, which is not blank, and its length. */
  function TokenAt(s: string): (r: Option<(Token, nat)>)
    requires s != "" && !IsSpace(s[0]) && !("--" <= s)
    ensures r.Some? ==> 0 < r.value.1 <= |s|
  {
    if s[0] == '\'' then Some((Text(Quoted(s[1..]).0), |s| - |Quoted(s[1..]).1|))
    else if StartsNumber(s) then Some((Number(s[..Leading(s, InNumber)]), Leading(s, InNumber)))
    else if StartsWord(s[0]) then Some((WordToken(s[..Leading(s, InWord)]), Leading(s, InWord)))
    else if OperatorAt(s).Some? then
      OperatorSpelling(s);
      Some((Operator(OperatorAt(s).value), |Spelling(OperatorAt(s).value)|))
    else if IsMark(s[0]) then Some((Punct(s[0]), 1))
    else None
  }

  function Prepended(done: seq<Token>, rest: Lexed): Lexed {
    match rest case Ok(ts) => Ok(done + ts) case UnexpectedCharacter => UnexpectedCharacter
  }

  function Lex(s: string): Lexed
    decreases |s|
  {
    if s == "" then Ok([Eof])
    else if IsSpace(s[0]) then Lex(s[1..])
    else if "--" <= s then Lex(s[Leading(s, NotNewline)..])
    else
      match TokenAt(s)
      case None => UnexpectedCharacter
      case Some((t, n)) => Prepended([t], Lex(s[n..]))
  }

  // ---- From tokens to text

  /** The tokens that the lexer can give, but for the end token. */
  predicate IsToken(t: Token) {
    match t
    case Keyword(word) => IsKeyword(word)
    case Ident(name) => name != "" && StartsWord(name[0]) && (forall i :: 0 <= i < |name| ==> InWord(name[i]))
        && !IsKeyword(Upper(name))
    case Number(digits) => StartsNumber(digits) && forall i :: 0 <= i < |digits| ==> InNumber(digits[i])
    case Text(_) => true
    case Operator(_) => true
    case Punct(mark) => IsMark(mark)
    case Eof => false
  }

  function Doubled(text: string): string {
    if text == "" then "" else (if text[0] == '\'' then "''" else [text[0]]) + Doubled(text[1..])
  }

  function Render(t: Token): string {
    match t
    case Keyword(word) => word
    case Ident(name) => name
    case Number(digits) => digits
    case Text(text) => "'" + Doubled(text) + "'"
    case Operator(op) => Spelling(op)
    case Punct(mark) => [mark]
    case Eof => ""
  }

  /** The tokens in text, with a space between any two. */
  function RenderAll(ts: seq<Token>): string {
    if ts == [] then "" else if |ts| == 1 then Render(ts[0]) else Render(ts[0]) + " " + RenderAll(ts[1..])
  }

  predicate EndsToken(rest: string) { rest == "" || rest[0] == ' ' }

  lemma {:induction false} QuotedDoubled(text: string, rest: string)
    requires EndsToken(rest)
    ensures Quoted(Doubled(text) + "'" + rest) == (text, rest)
  {
    var s := Doubled(text) + "'" + rest;
    if text == "" {
      assert s == "'" + rest;
      assert s[1..] == rest;
    } else {
      var tail := Doubled(text[1..]) + "'" + rest;
      QuotedDoubled(text[1..], rest);
      if text[0] == '\'' {
        assert s == "''" + tail;
        assert s[2..] == tail;
      } else {
        assert s == [text[0]] + tail;
        assert s[1..] == tail;
      }
      assert [text[0]] + text[1..] == text;
    }
  }

  lemma {:induction false} LeadingOf(word: string, rest: string, kind: char -> bool)
    requires (forall i :: 0 <= i < |word| ==> kind(word[i])) && (rest == "" || !kind(rest[0]))
    ensures Leading(word + rest, kind) == |word|
  {
    if word == "" {
      assert word + rest == rest;
    } else {
      LeadingOf(word[1..], rest, kind);
      assert (word + rest)[1..] == word[1..] + rest;
    }
  }

  lemma KeywordLetters(word: string)
    requires IsKeyword(word)
    ensures word != "" && forall i :: 0 <= i < |word| ==> IsUpper(word[i])
  {
  }

  lemma WordBack(word: string, rest: string)
    requires word != "" && StartsWord(word[0]) && (forall i :: 0 <= i < |word| ==> InWord(word[i])) && EndsToken(rest)
    ensures var s := word + rest; !IsSpace(s[0]) && !("--" <= s) && TokenAt(s) == Some((WordToken(word), |word|))
  {
    hide WordToken, OperatorAt;
    var s := word + rest;
    LeadingOf(word, rest, InWord);
    assert s[..|word|] == word;
    assert s[0] == word[0];
  }

  lemma KeywordToken(word: string)
    requires IsKeyword(word)
    ensures word != "" && StartsWord(word[0]) && (forall i :: 0 <= i < |word| ==> InWord(word[i]))
    ensures WordToken(word) == Keyword(word)
  {
    hide IsKeyword;
    KeywordLetters(word);
    assert Upper(word) == word;
  }

  lemma NumberBack(digits: string, rest: string)
    requires IsToken(Number(digits)) && EndsToken(rest)
    ensures var s := digits + rest; !IsSpace(s[0]) && !("--" <= s) && TokenAt(s) == Some((Number(digits), |digits|))
  {
    hide WordToken, OperatorAt, Quoted;
    var s := digits + rest;
    LeadingOf(digits, rest, InNumber);
    assert s[..|digits|] == digits;
    assert s[0] == digits[0];
  }

  lemma TextBack(text: string, rest: string)
    requires EndsToken(rest)
    ensures var s := "'" + Doubled(text) + "'" + rest;
            !IsSpace(s[0]) && !("--" <= s) && TokenAt(s) == Some((Text(text), 2 + |Doubled(text)|))
  {
    hide WordToken, OperatorAt, Quoted, Doubled;
    var s := "'" + Doubled(text) + "'" + rest;
    QuotedDoubled(text, rest);
    assert s[1..] == Doubled(text) + "'" + rest;
  }

  lemma OperatorBack(op: CompareOp, rest: string)
    requires EndsToken(rest)
    ensures
      var s := Spelling(op) + rest;
      !IsSpace(s[0]) && !("--" <= s) && TokenAt(s) == Some((Operator(op), |Spelling(op)|))
  {
    hide WordToken, Quoted, Leading;
    var s := Spelling(op) + rest;
    assert s[0] == Spelling(op)[0] && (|s| > 1 ==> s[1] == if |Spelling(op)| == 2 then Spelling(op)[1] else ' ');
    assert s[..|Spelling(op)|] == Spelling(op);
    assert OperatorAt(s) == Some(op);
  }

  lemma MarkBack(mark: char, rest: string)
    requires IsMark(mark) && EndsToken(rest)
    ensures var s := [mark] + rest; !IsSpace(s[0]) && !("--" <= s) && TokenAt(s) == Some((Punct(mark), 1))
  {
    hide WordToken, Quoted, Leading;
    var s := [mark] + rest;
    assert s[0] == mark && (|s| > 1 ==> s[1] == ' ');
  }

  /** A rendered token that a space or the end follows is read back. */
  lemma TokenBack(t: Token, rest: string)
    requires IsToken(t) && EndsToken(rest)
    ensures var s := Render(t) + rest; s != "" && !IsSpace(s[0]) && !("--" <= s) && TokenAt(s) == Some((t, |Render(t)|))
  {
    hide IsKeyword, Doubled, Upper, TokenAt, IsSpace, StartsNumber;
    match t
    case Keyword(word) =>
      KeywordToken(word);
      WordBack(word, rest);
    case Ident(name) =>
      WordBack(name, rest);
    case Number(digits) =>
      NumberBack(digits, rest);
    case Text(text) =>
      TextBack(text, rest);
    case Operator(op) =>
      OperatorBack(op, rest);
    case Punct(mark) =>
      MarkBack(mark, rest);
  }

  lemma LexToken(t: Token, rest: string)
    requires IsToken(t) && EndsToken(rest)
    ensures Lex(Render(t) + rest) == Prepended([t], Lex(rest))
  {
    hide IsToken, Render, TokenAt;
    TokenBack(t, rest);
    assert (Render(t) + rest)[|Render(t)|..] == rest;
  }

  /** Reading rendered tokens gives them back, and the end token behind them. */
  lemma {:induction false} LexRender(ts: seq<Token>)
    requires forall i :: 0 <= i < |ts| ==> IsToken(ts[i])
    ensures Lex(RenderAll(ts)) == Ok(ts + [Eof])
  {
    hide IsToken, Render, TokenAt;
    if ts == [] {
    } else if |ts| == 1 {
      LexToken(ts[0], "");
      assert Render(ts[0]) + "" == Render(ts[0]);
      assert ts == [ts[0]];
    } else {
      var rest := RenderAll(ts[1..]);
      LexRender(ts[1..]);
      LexToken(ts[0], " " + rest);
      assert Render(ts[0]) + (" " + rest) == RenderAll(ts);
      assert (" " + rest)[1..] == rest;
      assert [ts[0]] + (ts[1..] + [Eof]) == ts + [Eof];
    }
  }

  // ---- Whatever is read can be rendered

  lemma WordIsToken(word: string)
    requires word != "" && StartsWord(word[0]) && forall i :: 0 <= i < |word| ==> InWord(word[i])
    ensures IsToken(WordToken(word))
  {
    hide IsKeyword, Upper;
  }

  lemma TokenAtIsToken(s: string)
    requires s != "" && !IsSpace(s[0]) && !("--" <= s) && TokenAt(s).Some?
    ensures IsToken(TokenAt(s).value.0)
  {
    hide IsKeyword, Upper, Quoted, OperatorAt, WordToken;
    if s[0] != '\'' && !StartsNumber(s) && StartsWord(s[0]) {
      WordIsToken(s[..Leading(s, InWord)]);
    } else if s[0] != '\'' && StartsNumber(s) {
      assert s[..Leading(s, InNumber)][0] == s[0];
      assert s[0] == '.' ==> InNumber(s[1]) && Leading(s, InNumber) >= 2;
    }
  }

  /** Tokens that can be rendered, and the end token behind them. */
  predicate Complete(ts: seq<Token>) {
    ts != [] && ts[|ts| - 1] == Eof && forall i :: 0 <= i < |ts| - 1 ==> IsToken(ts[i])
  }

  lemma CompletePrepended(t: Token, ts: seq<Token>)
    requires IsToken(t) && Complete(ts)
    ensures Complete([t] + ts)
  {
    hide IsToken;
  }

  lemma {:induction false} LexIsTokens(s: string)
    requires Lex(s).Ok?
    ensures Complete(Lex(s).tokens)
    decreases |s|
  {
    hide IsToken, TokenAt, Complete, IsSpace;
    if s == "" {
      assert Complete([Eof]) by {
        JustEof();
      }
    } else if IsSpace(s[0]) {
      LexIsTokens(s[1..]);
    } else if "--" <= s {
      LexIsTokens(s[Leading(s, NotNewline)..]);
    } else {
      var (t, n) := TokenAt(s).value;
      TokenAtIsToken(s);
      LexIsTokens(s[n..]);
      CompletePrepended(t, Lex(s[n..]).tokens);
    }
  }

  lemma JustEof()
    ensures Complete([Eof])
  {
  }

  /** Reading any text gives tokens that can be rendered; rendering and reading them again changes nothing. */
  lemma LexAgain(s: string)
    requires Lex(s).Ok?
    ensures var ts := Lex(s).tokens; Complete(ts) && Lex(RenderAll(ts[..|ts| - 1])) == Lex(s)
  {
    hide IsToken, Lex, RenderAll;
    var ts := Lex(s).tokens;
    LexIsTokens(s);
    LexRender(ts[..|ts| - 1]);
    assert ts[..|ts| - 1] + [Eof] == ts;
  }

  // ---- The loops

  method ScanQuoted(sql: string, start: nat) returns (text: string, pos: nat)
    requires start <= |sql|
    ensures start <= pos <= |sql| && (text, sql[pos..]) == Quoted(sql[start..])
  {
    text, pos := "", start;
    assert "" + Quoted(sql[start..]).0 == Quoted(sql[start..]).0;
    while pos < |sql|
      invariant start <= pos <= |sql|
      invariant Quoted(sql[start..]) == (text + Quoted(sql[pos..]).0, Quoted(sql[pos..]).1)
    {
      ghost var rest := sql[pos..];
      assert rest[1..] == sql[pos + 1..];
      var c := sql[pos];
      if c == '\'' {
        if pos + 1 < |sql| && sql[pos + 1] == '\'' {
          assert rest[2..] == sql[pos + 2..];
          assert text + (['\''] + Quoted(sql[pos + 2..]).0) == text + ['\''] + Quoted(sql[pos + 2..]).0;
          text, pos := text + ['\''], pos + 2;
          continue;
        }
        assert text + "" == text;
        pos := pos + 1;
        return;
      }
      assert text + ([c] + Quoted(sql[pos + 1..]).0) == text + [c] + Quoted(sql[pos + 1..]).0;
      text, pos := text + [c], pos + 1;
    }
    assert text + "" == text;
  }

  method ScanWhile(sql: string, start: nat, kind: char -> bool) returns (pos: nat)
    requires start <= |sql|
    ensures start <= pos <= |sql| && pos == start + Leading(sql[start..], kind)
  {
    pos := start;
    while pos < |sql| && kind(sql[pos])
      invariant start <= pos <= |sql| && start + Leading(sql[start..], kind) == pos + Leading(sql[pos..], kind)
    {
      assert sql[pos..][1..] == sql[pos + 1..];
      pos := pos + 1;
    }
  }

  method Tokenize(sql: string) returns (r: Lexed)
    ensures r == Lex(sql)
  {
    hide IsKeyword, Upper, Leading, Quoted, TokenAt, StartsNumber, OperatorAt, Spelling, WordToken;
    var tokens: seq<Token>, pos := [], 0;
    PrependNothing(Lex(sql));
    assert sql[0..] == sql;
    while pos < |sql|
      invariant pos <= |sql| && Lex(sql) == Prepended(tokens, Lex(sql[pos..]))
      decreases |sql| - pos
    {
      ghost var s := sql[pos..];
      var ch := sql[pos];
      assert s[1..] == sql[pos + 1..];
      if IsSpace(ch) {
        pos := pos + 1;
        continue;
      }
      if ch == '-' && pos + 1 < |sql| && sql[pos + 1] == '-' {
        var end := ScanWhile(sql, pos, NotNewline);
        assert "--" <= s && s[end - pos..] == sql[end..];
        pos := end;
        continue;
      }
      var t, end := NextToken(sql, pos);
      if t == None {
        return UnexpectedCharacter;
      }
      assert s[end - pos..] == sql[end..];
      PrependTwice(tokens, t.value, Lex(sql[end..]));
      tokens, pos := tokens + [t.value], end;
    }
    assert sql[pos..] == "";
    r := Ok(tokens + [Eof]);
  }

  /** The token at `pos`, by the first character that it can start with. */
  method NextToken(sql: string, pos: nat) returns (t: Option<Token>, end: nat)
    requires pos < |sql| && !IsSpace(sql[pos]) && !("--" <= sql[pos..])
    ensures match TokenAt(sql[pos..]) case None => t == None case Some((token, n)) => t == Some(token) && end == pos + n
  {
    hide IsKeyword, Upper, Leading, Quoted;
    ghost var s := sql[pos..];
    var ch := sql[pos];
    end := pos;
    if ch == '\'' {
      var text;
      text, end := ScanQuoted(sql, pos + 1);
      assert s[1..] == sql[pos + 1..];
      return Some(Text(text)), end;
    }
    if IsDigit(ch) || (ch == '.' && pos + 1 < |sql| && IsDigit(sql[pos + 1])) {
      end := ScanWhile(sql, pos, InNumber);
      assert s[..end - pos] == sql[pos..end];
      return Some(Number(sql[pos..end])), end;
    }
    if StartsWord(ch) {
      end := ScanWhile(sql, pos, InWord);
      assert s[..end - pos] == sql[pos..end];
      var word := sql[pos..end];
      return Some(if IsKeyword(Upper(word)) then Keyword(Upper(word)) else Ident(word)), end;
    }
    var op := OperatorAt(sql[pos..]);
    if op.Some? {
      return Some(Operator(op.value)), pos + |Spelling(op.value)|;
    }
    if IsMark(ch) {
      return Some(Punct(ch)), pos + 1;
    }
    return None, pos;
  }

  lemma PrependNothing(r: Lexed)
    ensures Prepended([], r) == r
  {
    if r.Ok? {
      assert [] + r.tokens == r.tokens;
    }
  }

  lemma PrependTwice(done: seq<Token>, t: Token, r: Lexed)
    ensures Prepended(done, Prepended([t], r)) == Prepended(done + [t], r)
  {
    if r.Ok? {
      assert done + ([t] + r.tokens) == done + [t] + r.tokens;
    }
  }
}
