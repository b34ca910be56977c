/** How tokens can be laid out as text, told without a lexer, and that the lexer reads exactly such texts. */
module Layout {
  import opened Bytes
  import opened Tokens
  import opened Lexer

  // ---- characters, by their codes

  predicate Blank(c: char) { c as int in {9, 10, 13, 32} }

  predicate Newline(c: char) { c as int == 10 }

  predicate Letter(c: char) { 65 <= c as int <= 90 || 97 <= c as int <= 122 }

  predicate Digit(c: char) { 48 <= c as int <= 57 }

  predicate WordStart(c: char) { Letter(c) || c as int == 95 }

  predicate WordChar(c: char) { WordStart(c) || Digit(c) }

  predicate NumberChar(c: char) { Digit(c) || c as int == 46 }

  lemma CharacterKinds(c: char)
    ensures Blank(c) <==> IsSpace(c)
    ensures Newline(c) <==> !NotNewline(c)
    ensures Digit(c) <==> IsDigit(c)
    ensures WordStart(c) <==> StartsWord(c)
    ensures WordChar(c) <==> InWord(c)
    ensures NumberChar(c) <==> InNumber(c)
  {
  }

  /** The word in upper-case letters, or with some of them, or all, in lower case. */
  ghost predicate AnyCase(u: string, word: string) {
    && |u| == |word|
    && forall i :: 0 <= i < |u| ==>
         u[i] == word[i] || (65 <= word[i] as int <= 90 && u[i] as int == word[i] as int + 32)
  }

  // ---- what a token looks like

  function Symbol(op: CompareOp): string {
    match op case Eq => "=" case Ne => "<>" case Lt => "<" case Le => "<=" case Gt => ">" case Ge => ">="
  }

  function EachQuoteTwice(text: string): string {
    if text == "" then "" else (if text[0] as int == 39 then "''" else [text[0]]) + EachQuoteTwice(text[1..])
  }

  /** `w` is the token `t` when `rest` is behind it. */
  ghost predicate Lexeme(w: string, t: Token, rest: string) {
    match t
    case Keyword(word) => IsKeyword(word) && AnyCase(w, word) && Ended(rest)
    case Ident(name) =>
      && w == name && name != "" && WordStart(name[0]) && (forall i :: 0 <= i < |name| ==> WordChar(name[i]))
      && (forall word :: IsKeyword(word) ==> !AnyCase(name, word)) && Ended(rest)
    case Number(digits) =>
      && w == digits && digits != "" && (forall i :: 0 <= i < |digits| ==> NumberChar(digits[i]))
      && (Digit(digits[0]) || (|digits| > 1 && Digit(digits[1]))) && (rest == "" || !NumberChar(rest[0]))
    case Text(text) =>
      || (w == "'" + EachQuoteTwice(text) + "'" && (rest == "" || rest[0] as int != 39))
      || (w == "'" + EachQuoteTwice(text) && rest == "")
    case Operator(op) =>
      && w == Symbol(op)
      && (op == Lt && rest != "" ==> rest[0] != '=' && rest[0] != '>')
      && (op == Gt && rest != "" ==> rest[0] != '=')
    case Punct(mark) => w == [mark] && mark in "(),;*." && (mark == '.' && rest != "" ==> !Digit(rest[0]))
    case Eof => false
  }

  ghost predicate Ended(rest: string) { rest == "" || !WordChar(rest[0]) }

  /** The first `n` characters are two dashes and what stands behind them in their line. */
  ghost predicate Comment(g: string, n: nat) {
    2 <= n <= |g| && "--" <= g && (forall i :: 0 <= i < n ==> !Newline(g[i])) && (n < |g| ==> Newline(g[n]))
  }

  /** Blanks and comments, which end with their line, or with the text when it is the `last` gap. */
  ghost predicate Gap(g: string, last: bool)
    decreases |g|
  {
    || g == ""
    || (Blank(g[0]) && Gap(g[1..], last))
    || exists n: nat :: Comment(g, n) && if n < |g| then Gap(g[n..], last) else last
  }

  /** The tokens in their order, with gaps between them, or none. */
  ghost predicate Lays(s: string, ts: seq<Token>)
    decreases |ts|
  {
    if ts == [] then Gap(s, true)
    else
      exists a: nat, b: nat ::
        && a < b <= |s| && Gap(s[..a], false) && Lexeme(s[a..b], ts[0], s[b..]) && Lays(s[b..], ts[1..])
  }

  // ---- every layout is read

  lemma {:induction false} GapSkipped(g: string, rest: string)
    requires Gap(g, false)
    ensures Lex(g + rest) == Lex(rest)
    decreases |g|
  {
    hide Lex, Blank, Comment;
    if g == "" {
      assert g + rest == rest;
    } else if Blank(g[0]) && Gap(g[1..], false) {
      BlankSkipped(g + rest);
      GapSkipped(g[1..], rest);
      assert (g + rest)[1..] == g[1..] + rest;
    } else {
      var n: nat :| Comment(g, n) && n < |g| && Gap(g[n..], false);
      CommentGoesOn(g, rest, n);
      CommentSkipped(g + rest, n);
      GapSkipped(g[n..], rest);
      assert (g + rest)[n..] == g[n..] + rest;
    }
  }

  lemma BlankSkipped(s: string)
    requires s != "" && Blank(s[0])
    ensures Lex(s) == Lex(s[1..])
  {
    hide TokenAt;
    CharacterKinds(s[0]);
  }

  lemma CommentGoesOn(g: string, rest: string, n: nat)
    requires Comment(g, n) && n < |g|
    ensures Comment(g + rest, n)
  {
    hide Newline;
    assert forall i :: 0 <= i < |g| ==> (g + rest)[i] == g[i];
  }

  /** A comment up to its newline, or to the end. */
  lemma CommentSkipped(s: string, n: nat)
    requires Comment(s, n)
    ensures 2 <= n && Leading(s, NotNewline) == n && Lex(s) == Lex(s[n..])
  {
    hide TokenAt, Leading, Blank;
    assert s == s[..n] + s[n..];
    LeadingOf(s[..n], s[n..], NotNewline);
  }

  lemma {:induction false} LastGap(g: string)
    requires Gap(g, true)
    ensures Lex(g) == Lexed.Ok([Eof])
    decreases |g|
  {
    hide TokenAt, IsSpace, Blank, Comment;
    if g != "" {
      if Blank(g[0]) && Gap(g[1..], true) {
        BlankSkipped(g);
        LastGap(g[1..]);
      } else {
        var n: nat :| Comment(g, n) && (n < |g| ==> Gap(g[n..], true));
        CommentSkipped(g, n);
        if n < |g| {
          LastGap(g[n..]);
        }
      }
    }
  }

  lemma UpperOf(u: string, word: string)
    requires forall i :: 0 <= i < |word| ==> IsUpper(word[i])
    ensures AnyCase(u, word) <==> Upper(u) == word
  {
    if Upper(u) == word {
      forall i | 0 <= i < |u|
        ensures u[i] == word[i] || (65 <= word[i] as int <= 90 && u[i] as int == word[i] as int + 32)
      {
        assert UpperChar(u[i]) == word[i];
      }
    }
    if AnyCase(u, word) {
      forall i | 0 <= i < |u| ensures UpperChar(u[i]) == word[i] {
        assert IsUpper(word[i]);
      }
    }
  }

  /** A word of letters, digits and underscores is a keyword when it is one in some case, and a name otherwise. */
  lemma WordKinds(u: string, word: string)
    requires IsKeyword(word)
    ensures AnyCase(u, word) <==> Upper(u) == word
  {
    KeywordLetters(word);
    UpperOf(u, word);
  }

  lemma AnyCaseStarts(u: string, word: string)
    requires IsKeyword(word) && AnyCase(u, word)
    ensures u != "" && StartsWord(u[0]) && forall i :: 0 <= i < |u| ==> InWord(u[i])
  {
    hide IsKeyword;
    KeywordLetters(word);
    forall i | 0 <= i < |u| ensures StartsWord(u[i]) {
      assert IsUpper(word[i]);
    }
  }

  lemma WordRead(w: string, rest: string)
    requires w != "" && StartsWord(w[0]) && (forall i :: 0 <= i < |w| ==> InWord(w[i])) && Ended(rest)
    ensures var s := w + rest; !IsSpace(s[0]) && !("--" <= s) && TokenAt(s) == Some((WordToken(w), |w|))
  {
    hide WordToken, OperatorAt, Quoted, IsMark, WordChar;
    var s := w + rest;
    if rest != "" {
      CharacterKinds(rest[0]);
    }
    LeadingOf(w, rest, InWord);
    assert s[..|w|] == w && s[0] == w[0];
  }

  lemma NumberRead(w: string, rest: string)
    requires Lexeme(w, Number(w), rest)
    ensures var s := w + rest; !IsSpace(s[0]) && !("--" <= s) && TokenAt(s) == Some((Number(w), |w|))
  {
    hide WordToken, OperatorAt, Quoted, IsMark;
    var s := w + rest;
    LeadingOf(w, rest, InNumber);
    assert s[..|w|] == w && s[0] == w[0] && (|w| > 1 ==> s[1] == w[1]);
  }

  /** A quoted text is read up to its closing quote, or to the end. */
  lemma {:induction false} QuotedRead(text: string, rest: string)
    requires rest == "" || rest[0] != '\''
    ensures Quoted(EachQuoteTwice(text) + ("'" + rest)) == (text, rest)
    ensures Quoted(EachQuoteTwice(text)) == (text, "")
  {
    hide Quoted;
    var closed, open := EachQuoteTwice(text) + ("'" + rest), EachQuoteTwice(text);
    if text == "" {
      assert closed == "'" + rest;
      QuotedEnds(rest);
    } else {
      var tail := EachQuoteTwice(text[1..]);
      QuotedRead(text[1..], rest);
      assert [text[0]] + text[1..] == text;
      QuotedGoesOn(text[0], tail);
      QuotedGoesOn(text[0], tail + ("'" + rest));
      var front := if text[0] as int == 39 then "''" else [text[0]];
      assert closed == front + (tail + ("'" + rest)) && open == front + tail;
    }
  }

  lemma QuotedEnds(rest: string)
    requires rest == "" || rest[0] != '\''
    ensures Quoted("'" + rest) == ("", rest) && Quoted("") == ("", "")
  {
    var s := "'" + rest;
    assert s[1..] == rest && (|s| > 1 ==> s[1] == rest[0]);
  }

  lemma QuotedGoesOn(c: char, tail: string)
    ensures Quoted((if c as int == 39 then "''" else [c]) + tail) == ([c] + Quoted(tail).0, Quoted(tail).1)
  {
    var s := (if c as int == 39 then "''" else [c]) + tail;
    assert s[if c as int == 39 then 2 else 1..] == tail;
  }

  lemma TextRead(w: string, text: string, rest: string)
    requires Lexeme(w, Text(text), rest)
    ensures var s := w + rest; s != "" && !IsSpace(s[0]) && !("--" <= s) && TokenAt(s) == Some((Text(text), |w|))
  {
    hide WordToken, OperatorAt, Quoted, EachQuoteTwice, IsMark, Leading;
    var s := w + rest;
    QuotedRead(text, rest);
    if w == "'" + EachQuoteTwice(text) + "'" && (rest == "" || rest[0] as int != 39) {
      assert s[1..] == EachQuoteTwice(text) + ("'" + rest);
    } else {
      assert s[1..] == EachQuoteTwice(text);
    }
  }

  lemma OperatorRead(op: CompareOp, rest: string)
    requires Lexeme(Symbol(op), Operator(op), rest)
    ensures
      var s := Symbol(op) + rest;
      !IsSpace(s[0]) && !("--" <= s) && TokenAt(s) == Some((Operator(op), |Symbol(op)|))
  {
    hide WordToken, Quoted, Leading;
    var s := Symbol(op) + rest;
    assert s[0] == Symbol(op)[0];
    assert |s| > 1 ==> s[1] == if |Symbol(op)| == 2 then Symbol(op)[1] else rest[0];
    assert s[..|Symbol(op)|] == Symbol(op);
    assert OperatorAt(s) == Some(op);
  }

  lemma MarkRead(mark: char, rest: string)
    requires Lexeme([mark], Punct(mark), rest)
    ensures var s := [mark] + rest; !IsSpace(s[0]) && !("--" <= s) && TokenAt(s) == Some((Punct(mark), 1))
  {
    hide WordToken, Quoted, Leading;
    var s := [mark] + rest;
    assert s[0] == mark && (|s| > 1 ==> s[1] == rest[0]);
  }

  /** Whatever looks like a token is read as that token. */
  lemma LexemeRead(w: string, t: Token, rest: string)
    requires Lexeme(w, t, rest)
    ensures var s := w + rest; s != "" && !IsSpace(s[0]) && !("--" <= s) && TokenAt(s) == Some((t, |w|))
  {
    hide IsKeyword, TokenAt, IsSpace, Upper, AnyCase, EachQuoteTwice, Symbol;
    match t
    case Keyword(word) =>
      WordKinds(w, word);
      AnyCaseStarts(w, word);
      WordRead(w, rest);
    case Ident(name) =>
      IdentStarts(name);
      if IsKeyword(Upper(name)) {
        WordKinds(name, Upper(name));
      }
      WordRead(name, rest);
    case Number(digits) =>
      NumberRead(digits, rest);
    case Text(text) =>
      TextRead(w, text, rest);
    case Operator(op) =>
      OperatorRead(op, rest);
    case Punct(mark) =>
      MarkRead(mark, rest);
  }

  lemma IdentStarts(name: string)
    requires name != "" && WordStart(name[0]) && forall i :: 0 <= i < |name| ==> WordChar(name[i])
    ensures StartsWord(name[0]) && forall i :: 0 <= i < |name| ==> InWord(name[i])
  {
  }

  lemma {:induction false} LayoutRead(s: string, ts: seq<Token>)
    requires Lays(s, ts)
    ensures Lex(s) == Lexed.Ok(ts + [Eof])
    decreases |ts|
  {
    hide Gap, Lexeme, TokenAt, Lex;
    if ts == [] {
      LastGap(s);
    } else {
      var a: nat, b: nat :|
        a < b <= |s| && Gap(s[..a], false) && Lexeme(s[a..b], ts[0], s[b..]) && Lays(s[b..], ts[1..]);
      LayoutRead(s[b..], ts[1..]);
      assert s == s[..a] + s[a..];
      GapSkipped(s[..a], s[a..]);
      assert s[a..] == s[a..b] + s[b..];
      LexemeRead(s[a..b], ts[0], s[b..]);
      LexStep(s[a..], ts[0], b - a);
      assert s[a..][b - a..] == s[b..];
      assert [ts[0]] + (ts[1..] + [Eof]) == ts + [Eof];
    }
  }

  lemma LexStep(s: string, t: Token, n: nat)
    requires s != "" && !IsSpace(s[0]) && !("--" <= s) && TokenAt(s) == Some((t, n))
    ensures n <= |s| && Lex(s) == Prepended([t], Lex(s[n..]))
  {
    hide TokenAt, IsSpace;
  }

  // ---- nothing else is read

  lemma WordIsLexeme(s: string)
    requires s != "" && StartsWord(s[0])
    ensures
      var n := Leading(s, InWord);
      n > 0 && Lexeme(s[..n], WordToken(s[..n]), s[n..])
  {
    hide IsKeyword, AnyCase;
    var n := Leading(s, InWord);
    var w, rest := s[..n], s[n..];
    assert InWord(s[0]);
    forall i | 0 <= i < n ensures WordChar(w[i]) {
      CharacterKinds(w[i]);
    }
    CharacterKinds(w[0]);
    if rest != "" {
      CharacterKinds(rest[0]);
    }
    if IsKeyword(Upper(w)) {
      WordKinds(w, Upper(w));
    } else {
      forall word | IsKeyword(word) ensures !AnyCase(w, word) {
        WordKinds(w, word);
      }
    }
  }

  lemma NumberIsLexeme(s: string)
    requires StartsNumber(s)
    ensures
      var n := Leading(s, InNumber);
      n > 0 && Lexeme(s[..n], Number(s[..n]), s[n..])
  {
    var n := Leading(s, InNumber);
    assert InNumber(s[0]);
    assert s[0] == '.' ==> InNumber(s[1]) && n >= 2;
    assert s[..n][0] == s[0];
  }

  /** What is read of a quoted text, with the quotes in it doubled, is what was there. */
  lemma {:induction false} QuotedIsLexeme(s: string)
    ensures
      var (text, rest) := Quoted(s);
      || (s == EachQuoteTwice(text) + "'" + rest && (rest == "" || rest[0] != '\''))
      || (s == EachQuoteTwice(text) && rest == "")
    decreases |s|
  {
    hide Quoted, EachQuoteTwice;
    if s == "" {
      QuotedEnds("");
      TwiceFront('a', "");
    } else if s[0] == '\'' && (|s| == 1 || s[1] != '\'') {
      assert s == "'" + s[1..];
      QuotedEnds(s[1..]);
      TwiceFront('a', "");
    } else {
      var tail := s[if s[0] == '\'' then 2 else 1..];
      QuotedIsLexeme(tail);
      assert s == (if s[0] as int == 39 then "''" else [s[0]]) + tail;
      QuotedGoesOn(s[0], tail);
      TwiceFront(s[0], Quoted(tail).0);
    }
  }

  lemma TwiceFront(c: char, text: string)
    ensures EachQuoteTwice("") == ""
    ensures EachQuoteTwice([c] + text) == (if c as int == 39 then "''" else [c]) + EachQuoteTwice(text)
  {
    assert ([c] + text)[1..] == text;
  }

  lemma TextIsLexeme(s: string)
    requires s != "" && s[0] == '\''
    ensures
      var (text, rest) := Quoted(s[1..]);
      var n := |s| - |rest|;
      0 < n <= |s| && s[n..] == rest && Lexeme(s[..n], Text(text), s[n..])
  {
    hide Quoted, EachQuoteTwice;
    QuotedIsLexeme(s[1..]);
    var (text, rest) := Quoted(s[1..]);
    var n := |s| - |rest|;
    assert s == "'" + s[1..];
    if s[1..] == EachQuoteTwice(text) + "'" + rest && (rest == "" || rest[0] != '\'') {
      assert s == "'" + EachQuoteTwice(text) + "'" + rest;
      assert s[..n] == "'" + EachQuoteTwice(text) + "'";
    } else {
      assert s[..n] == s;
    }
  }

  lemma SymbolIsLexeme(s: string)
    requires s != "" && !StartsNumber(s) && (OperatorAt(s).Some? || IsMark(s[0]))
    ensures OperatorAt(s).Some? ==>
              var op := OperatorAt(s).value;
              |Spelling(op)| <= |s| && Lexeme(s[..|Spelling(op)|], Operator(op), s[|Spelling(op)|..])
    ensures OperatorAt(s).None? ==> Lexeme(s[..1], Punct(s[0]), s[1..])
  {
    assert |s| > 1 ==> s[1..][0] == s[1];
    if OperatorAt(s).Some? {
      OperatorSpelling(s);
      var op := OperatorAt(s).value;
      assert s[..|Spelling(op)|] == Spelling(op) == Symbol(op);
    }
  }

  lemma TokenIsLexeme(s: string)
    requires s != "" && !IsSpace(s[0]) && !("--" <= s) && TokenAt(s).Some?
    ensures var (t, n) := TokenAt(s).value; Lexeme(s[..n], t, s[n..])
  {
    hide Lexeme, WordToken, Quoted, Leading, OperatorAt, Spelling, StartsNumber;
    if s[0] == '\'' {
      TextIsLexeme(s);
    } else if StartsNumber(s) {
      NumberIsLexeme(s);
    } else if StartsWord(s[0]) {
      WordIsLexeme(s);
    } else {
      SymbolIsLexeme(s);
    }
  }

  /** A blank or a comment in front of a layout is part of its first gap. */
  lemma GapInFront(s: string, ts: seq<Token>, n: nat)
    requires 0 < n <= |s| && Lays(s[n..], ts)
    requires || (n == 1 && Blank(s[0]))
             || (Comment(s, n) && (n == |s| ==> ts == []))
    ensures Lays(s, ts)
  {
    hide Lexeme, Blank, Newline;
    var tail := s[n..];
    if ts != [] {
      var a: nat, b: nat :|
        a < b <= |tail| && Gap(tail[..a], false) && Lexeme(tail[a..b], ts[0], tail[b..]) && Lays(tail[b..], ts[1..]);
      var g := s[..n + a];
      assert g[n..] == tail[..a] && s[n + a..n + b] == tail[a..b] && s[n + b..] == tail[b..];
      if !(n == 1 && Blank(s[0])) {
        GapAfterComment(s, ts, n, a, b);
      }
      assert Gap(g, false);
    }
  }

  /** A comment ends with its line, so a gap behind it cannot be empty. */
  lemma GapAfterComment(s: string, ts: seq<Token>, n: nat, a: nat, b: nat)
    requires Comment(s, n) && n < |s|
    requires ts != [] && a < b <= |s| - n && Gap(s[n..][..a], false) && Lexeme(s[n..][a..b], ts[0], s[n..][b..])
    ensures a > 0 && Gap(s[..n + a], false)
  {
    hide Gap, Lexeme, Newline;
    LexemeRead(s[n..][a..b], ts[0], s[n..][b..]);
    assert s[n..][a..b] + s[n..][b..] == s[n + a..];
    CharacterKinds(s[n]);
    NewlineIsBlank(s[n]);
    assert a > 0;
    var g := s[..n + a];
    assert g[n..] == s[n..][..a];
    CommentGap(g, n);
  }

  lemma NewlineIsBlank(c: char)
    ensures Newline(c) ==> Blank(c)
  {
  }

  lemma CommentGap(g: string, n: nat)
    requires Comment(g, n) && n < |g| && Gap(g[n..], false)
    ensures Gap(g, false)
  {
  }

  lemma {:induction false} ReadIsLayout(s: string) returns (ts: seq<Token>)
    requires Lex(s).Ok?
    ensures Lex(s).tokens == ts + [Eof] && Lays(s, ts)
    decreases |s|
  {
    hide TokenAt, Lexeme, Gap, IsSpace, Blank, Newline, NotNewline, Lays;
    if s == "" {
      ts := [];
      NothingLaid();
    } else if IsSpace(s[0]) {
      ts := ReadIsLayout(s[1..]);
      CharacterKinds(s[0]);
      GapInFront(s, ts, 1);
    } else if "--" <= s {
      var n := Leading(s, NotNewline);
      LeadingComment(s);
      ts := ReadIsLayout(s[n..]);
      if n == |s| {
        EndOfText(s[n..], ts);
      }
      GapInFront(s, ts, n);
    } else {
      var (t, n) := TokenAt(s).value;
      LexStep(s, t, n);
      var rest := ReadIsLayout(s[n..]);
      TokenIsLexeme(s);
      ts := [t] + rest;
      TokenInFront(s, t, n, rest);
    }
  }

  lemma NothingLaid()
    ensures Lays("", [])
  {
  }

  lemma EndOfText(s: string, ts: seq<Token>)
    requires s == "" && Lex(s).Ok? && Lex(s).tokens == ts + [Eof]
    ensures ts == []
  {
    assert |ts + [Eof]| == 1;
  }

  lemma LeadingComment(s: string)
    requires "--" <= s
    ensures Comment(s, Leading(s, NotNewline))
  {
    var n := Leading(s, NotNewline);
    assert NotNewline(s[0]) && NotNewline(s[1]);
    assert s[1..][0] == s[1];
  }

  lemma TokenInFront(s: string, t: Token, n: nat, ts: seq<Token>)
    requires 0 < n <= |s| && Lexeme(s[..n], t, s[n..]) && Lays(s[n..], ts)
    ensures Lays(s, [t] + ts)
  {
    hide Lexeme;
    assert s[..0] == "" && s[0..n] == s[..n] && ([t] + ts)[1..] == ts;
    assert Gap(s[..0], false);
  }

  /** The lexer reads exactly the texts that lay tokens out, as those tokens. */
  lemma LexerExact(s: string, ts: seq<Token>)
    ensures Lex(s) == Lexed.Ok(ts + [Eof]) <==> Lays(s, ts)
  {
    hide Lays, Lex;
    if Lays(s, ts) {
      LayoutRead(s, ts);
    }
    if Lex(s) == Lexed.Ok(ts + [Eof]) {
      var read := ReadIsLayout(s);
      assert (read + [Eof])[..|read|] == read && (ts + [Eof])[..|ts|] == ts;
    }
  }

  /** A keyword is read in any case, whatever ends the word. */
  lemma KeywordAnyCase(word: string, u: string, rest: string)
    requires IsKeyword(word) && AnyCase(u, word) && Ended(rest)
    ensures Lex(u + rest) == Prepended([Keyword(word)], Lex(rest))
  {
    hide TokenAt, IsKeyword, AnyCase, Lex;
    LexemeRead(u, Keyword(word), rest);
    LexStep(u + rest, Keyword(word), |u|);
    assert (u + rest)[|u|..] == rest;
  }
}
