/** The tokeniser of app/scim/filters.py. */
module FilterLexer {
  import opened Text

  datatype FilterError =
    | UnparseableCharacter(position: nat)
    | ComplexAttribute
    | UnexpectedEnd
    | TrailingToken
    | NotNeedsGroup
    | UnbalancedParentheses
    | ExpectedAttribute
    | UnknownAttribute(path: string)
    | ExpectedOperator
    | ExpectedValue
    | OperatorNeedsText(operator: string)

  // --- lexemes: what the regular expression can match ------------------------

  datatype LexemeKind = Space | LParen | RParen | Str | Word | Bracket

  datatype Lexeme = Lexeme(kind: LexemeKind, text: string)

  predicate IsWordChar(c: char) {
    || 'A' <= c <= 'Z' || 'a' <= c <= 'z' || '0' <= c <= '9'
    || c == '_' || c == '.' || c == ':' || c == '$' || c == '-'
  }

  /** In ASCII codes: letters, the digits and the colon after them, and the dollar sign, hyphen, dot and underscore. */
  lemma {:induction false} WordCharsAre(c: char)
    ensures IsWordChar(c) <==>
            var n := c as int; 65 <= n < 91 || 97 <= n < 123 || 48 <= n < 59 || n in {36, 45, 46, 95}
  {
  }

  predicate IsWord(s: string) {
    s != "" && forall i :: 0 <= i < |s| ==> IsWordChar(s[i])
  }

  /** The inside of a string literal: (?:[^"\\]|\\.)* where . excludes a newline. */
  predicate IsBody(s: string) {
    if s == "" then true
    else if s[0] == '\\' then |s| >= 2 && s[1] != '\n' && IsBody(s[2..])
    else s[0] != '"' && IsBody(s[1..])
  }

  /** The language of each alternative of the token expression. */
  predicate IsLexeme(l: Lexeme) {
    match l.kind
    case Space => l.text != "" && AllSpace(l.text)
    case LParen => l.text == "("
    case RParen => l.text == ")"
    case Bracket => l.text == "["
    case Word => IsWord(l.text)
    case Str => |l.text| >= 2 && l.text[0] == '"' && l.text[|l.text| - 1] == '"' && IsBody(l.text[1..|l.text| - 1])
  }

  function SpaceRun(s: string): (n: nat)
    ensures n <= |s| && AllSpace(s[..n])
    ensures n < |s| ==> !IsSpace(s[n])
  {
    if s == "" || !IsSpace(s[0]) then 0
    else
      var n := 1 + SpaceRun(s[1..]);
      assert s[..n] == [s[0]] + s[1..][..n - 1];
      n
  }

  function WordRun(s: string): (n: nat)
    ensures n <= |s| && (n > 0 ==> IsWord(s[..n]))
    ensures n < |s| ==> !IsWordChar(s[n])
  {
    if s == "" || !IsWordChar(s[0]) then 0
    else
      var n := 1 + WordRun(s[1..]);
      assert s[..n] == [s[0]] + s[1..][..n - 1];
      n
  }

  /** Length of the literal body at the start of s, when an unescaped quote follows it. */
  function BodyRun(s: string): (n: Option<nat>)
    ensures n.Some? ==> n.value < |s| && s[n.value] == '"' && IsBody(s[..n.value])
  {
    if s == "" then None
    else if s[0] == '"' then Some(0)
    else if s[0] == '\\' then
      if |s| < 2 || s[1] == '\n' then None
      else match BodyRun(s[2..])
           case None => None
           case Some(n) => assert s[..n + 2][2..] == s[2..][..n]; Some(n + 2)
    else match BodyRun(s[1..])
         case None => None
         case Some(n) => assert s[..n + 1][1..] == s[1..][..n]; Some(n + 1)
  }

  /** `_TOKEN_RE.match` at the start of s. */
  function MatchToken(s: string): (l: Option<Lexeme>)
    requires s != ""
    ensures l.Some? ==> IsLexeme(l.value) && l.value.text != "" && l.value.text <= s
  {
    if IsSpace(s[0]) then Some(Lexeme(Space, s[..SpaceRun(s)]))
    else if s[0] == '(' then Some(Lexeme(LParen, s[..1]))
    else if s[0] == ')' then Some(Lexeme(RParen, s[..1]))
    else if s[0] == '[' then Some(Lexeme(Bracket, s[..1]))
    else if s[0] == '"' then
      match BodyRun(s[1..])
      case None => None
      case Some(n) => assert s[..n + 2][1..n + 1] == s[1..][..n]; Some(Lexeme(Str, s[..n + 2]))
    else if IsWordChar(s[0]) then Some(Lexeme(Word, s[..WordRun(s)]))
    else None
  }

  /** The lexemes of a whole expression, or the first error met from the left. */
  function Lexemes(s: string, position: nat): Result<seq<Lexeme>, FilterError>
    decreases |s|
  {
    if s == "" then Ok([])
    else match MatchToken(s)
         case None => Err(UnparseableCharacter(position))
         case Some(l) =>
           if l.kind == Bracket then Err(ComplexAttribute)
           else match Lexemes(s[|l.text|..], position + |l.text|)
                case Err(e) => Err(e)
                case Ok(ls) => Ok([l] + ls)
  }

  function Concat(ls: seq<Lexeme>): string {
    if ls == [] then "" else ls[0].text + Concat(ls[1..])
  }

  // --- tokens ----------------------------------------------------------------

  datatype TokenKind = KLParen | KRParen | KAnd | KOr | KNot | KOp | KAttr | KValue

  datatype Token = Token(kind: TokenKind, value: string)

  const COMPARISON: set<string> := {"eq", "ne", "co", "sw", "ew", "gt", "ge", "lt", "le"}

  predicate IsOperator(w: string) {
    w in COMPARISON || w == "pr"
  }

  predicate IsKeyword(w: string) {
    IsOperator(w) || w in {"and", "or", "not", "true", "false", "null"}
  }

  function WordToken(word: string): Token {
    var lowered := LowerAscii(word);
    if lowered == "and" then Token(KAnd, lowered)
    else if lowered == "or" then Token(KOr, lowered)
    else if lowered == "not" then Token(KNot, lowered)
    else if IsOperator(lowered) then Token(KOp, lowered)
    else if lowered in {"true", "false", "null"} then Token(KValue, lowered)
    else Token(KAttr, word)
  }

  /** A keyword in any case is its own token, spelled in lower case; every other word is an attribute as written. */
  lemma {:induction false} WordTokensAre(word: string)
    ensures var t, w := WordToken(word), LowerAscii(word);
            && (t.kind == KAnd <==> w == "and") && (t.kind == KOr <==> w == "or") && (t.kind == KNot <==> w == "not")
            && (t.kind == KOp <==> w in {"eq", "ne", "co", "sw", "ew", "gt", "ge", "lt", "le", "pr"})
            && (t.kind == KValue <==> w in {"true", "false", "null"})
            && t.kind in {KAnd, KOr, KNot, KOp, KValue, KAttr}
            && t.value == if t.kind == KAttr then word else w
  {
    hide LowerAscii;
  }

  /** The two whole-string replaces applied to the inside of a string literal. */
  function Unquote(raw: string): string {
    Replace(Replace(raw, ESCAPED_QUOTE, QUOTE), TWO_SLASHES, SLASH)
  }

  /** The tokens one lexeme contributes: none for whitespace, otherwise one. */
  function LexemeTokens(l: Lexeme): (ts: seq<Token>)
    requires IsLexeme(l)
  {
    match l.kind
    case Space => []
    case Bracket => []
    case LParen => [Token(KLParen, "(")]
    case RParen => [Token(KRParen, ")")]
    case Str => [Token(KValue, Unquote(l.text[1..|l.text| - 1]))]
    case Word => [WordToken(l.text)]
  }

  /** A sequence of lexemes that longest match cannot regroup. */
  predicate Separated(ls: seq<Lexeme>) {
    ls == [] ||
    (&& IsLexeme(ls[0]) && ls[0].kind != Bracket
     && (|ls| > 1 && ls[0].kind in {Space, Word} ==> ls[1].kind != ls[0].kind)
     && Separated(ls[1..]))
  }

  function TokensOf(ls: seq<Lexeme>): seq<Token>
    requires Separated(ls)
  {
    if ls == [] then [] else LexemeTokens(ls[0]) + TokensOf(ls[1..])
  }

  function TokensFrom(s: string, position: nat): Result<seq<Token>, FilterError> {
    match Lexemes(s, position)
    case Err(e) => Err(e)
    case Ok(ls) => LexemesSound(s, position, ls); Ok(TokensOf(ls))
  }

  function Prepend(ts: seq<Token>, r: Result<seq<Token>, FilterError>): Result<seq<Token>, FilterError> {
    match r
    case Err(e) => Err(e)
    case Ok(rest) => Ok(ts + rest)
  }

  lemma {:induction false} PrependTwice(a: seq<Token>, b: seq<Token>, r: Result<seq<Token>, FilterError>)
    ensures Prepend(a, Prepend(b, r)) == Prepend(a + b, r)
    ensures Prepend([], r) == r
  {
    if r.Ok? {
      assert a + (b + r.value) == (a + b) + r.value;
      assert [] + r.value == r.value;
    }
  }

  lemma {:induction false} TokensStep(s: string, position: nat, l: Lexeme)
    requires s != "" && MatchToken(s) == Some(l) && l.kind != Bracket
    ensures TokensFrom(s, position) == Prepend(LexemeTokens(l), TokensFrom(s[|l.text|..], position + |l.text|))
  {
    hide MatchToken, LexemeTokens, IsLexeme;
    var rest := s[|l.text|..];
    var tail := Lexemes(rest, position + |l.text|);
    assert s == l.text + rest;
    if tail.Ok? {
      LexemesCons(l, rest, position, tail.value);
      LexemesSound(s, position, [l] + tail.value);
      LexemesSound(rest, position + |l.text|, tail.value);
      TokensCons(l, tail.value);
    }
  }

  lemma {:induction false} LexemesCons(l: Lexeme, rest: string, position: nat, tail: seq<Lexeme>)
    requires l.text != "" && MatchToken(l.text + rest) == Some(l) && l.kind != Bracket
    requires Lexemes(rest, position + |l.text|) == Ok(tail)
    ensures Lexemes(l.text + rest, position) == Ok([l] + tail)
  {
    hide MatchToken;
    assert (l.text + rest)[|l.text|..] == rest;
  }

  lemma {:induction false} TokensCons(l: Lexeme, tail: seq<Lexeme>)
    requires Separated([l] + tail) && Separated(tail) && IsLexeme(l)
    ensures TokensOf([l] + tail) == LexemeTokens(l) + TokensOf(tail)
  {
    assert ([l] + tail)[1..] == tail;
  }

  method Tokenize(expression: string) returns (r: Result<seq<Token>, FilterError>)
    ensures r == TokensFrom(expression, 0)
  {
    var tokens: seq<Token> := [];
    var position := 0;
    assert expression[0..] == expression;
    PrependTwice([], [], TokensFrom(expression, 0));
    while position < |expression|
      invariant 0 <= position <= |expression|
      invariant TokensFrom(expression, 0) == Prepend(tokens, TokensFrom(expression[position..], position))
    {
      var here := expression[position..];
      var matched := MatchToken(here);
      if matched.None? {
        return Err(UnparseableCharacter(position));
      }
      var lexeme := matched.value;
      ghost var was := tokens;
      position := position + |lexeme.text|;
      match lexeme.kind {
        case Space =>
        case Bracket =>
          return Err(ComplexAttribute);
        case Str =>
          tokens := tokens + [Token(KValue, Unquote(lexeme.text[1..|lexeme.text| - 1]))];
        case LParen =>
          tokens := tokens + [Token(KLParen, "(")];
        case RParen =>
          tokens := tokens + [Token(KRParen, ")")];
        case Word =>
          tokens := tokens + [WordToken(lexeme.text)];
      }
      assert tokens == was + LexemeTokens(lexeme);
      assert expression[position..] == here[|lexeme.text|..];
      TokensStep(here, position - |lexeme.text|, lexeme);
      PrependTwice(was, LexemeTokens(lexeme), TokensFrom(expression[position..], position));
    }
    assert tokens + [] == tokens;
    return Ok(tokens);
  }

  // --- the lexemes are a partition of the input --------------------------------

  lemma {:induction false} LexemesHead(s: string, position: nat, ls: seq<Lexeme>)
    requires s != "" && Lexemes(s, position) == Ok(ls)
    ensures ls != [] && MatchToken(s) == Some(ls[0]) && ls[0].kind != Bracket
    ensures ls[0].text <= s && Lexemes(s[|ls[0].text|..], position + |ls[0].text|) == Ok(ls[1..])
  {
    hide MatchToken, IsLexeme;
    var l := MatchToken(s).value;
    var tail := Lexemes(s[|l.text|..], position + |l.text|).value;
    assert ls == [l] + tail && ls[1..] == tail;
  }

  lemma {:induction false} HeadIsPrefix(ls: seq<Lexeme>)
    requires ls != []
    ensures ls[0].text <= Concat(ls)
  {
  }

  lemma {:induction false} LexemesSound(s: string, position: nat, ls: seq<Lexeme>)
    requires Lexemes(s, position) == Ok(ls)
    ensures Concat(ls) == s && Separated(ls)
    decreases |s|
  {
    if s != "" {
      LexemesHead(s, position, ls);
      var l, tail := ls[0], ls[1..];
      var rest := s[|l.text|..];
      LexemesSound(rest, position + |l.text|, tail);
      assert s == l.text + rest && ls == [l] + tail;
      if tail != [] {
        HeadIsPrefix(tail);
        NextLexeme(s, l, rest, tail[0]);
      }
      SeparatedCons(l, tail);
    }
  }

  lemma {:induction false} SeparatedCons(l: Lexeme, tail: seq<Lexeme>)
    requires IsLexeme(l) && l.kind != Bracket && Separated(tail)
    requires tail != [] && l.kind in {Space, Word} ==> tail[0].kind != l.kind
    ensures Separated([l] + tail) && TokensOf([l] + tail) == LexemeTokens(l) + TokensOf(tail)
    ensures Concat([l] + tail) == l.text + Concat(tail)
  {
    assert ([l] + tail)[1..] == tail;
  }

  /** The first character of a lexeme decides its kind. */
  lemma {:induction false} FirstChar(l: Lexeme)
    requires IsLexeme(l)
    ensures l.text != ""
    ensures IsSpace(l.text[0]) <==> l.kind == Space
    ensures IsWordChar(l.text[0]) <==> l.kind == Word
  {
  }

  lemma {:induction false} NextLexeme(s: string, l: Lexeme, rest: string, next: Lexeme)
    requires s != "" && MatchToken(s) == Some(l) && s == l.text + rest
    requires IsLexeme(next) && next.text <= rest
    ensures l.kind in {Space, Word} ==> next.kind != l.kind
  {
    FirstChar(l);
    FirstChar(next);
    assert rest[0] == next.text[0];
    assert s[|l.text|] == rest[0];
    assert l.text == s[..|l.text|];
  }

  lemma {:induction false} SpaceRunIs(gap: string, rest: string)
    requires AllSpace(gap) && (rest == "" || !IsSpace(rest[0]))
    ensures SpaceRun(gap + rest) == |gap|
  {
    if gap == "" {
      assert gap + rest == rest;
    } else {
      assert (gap + rest)[1..] == gap[1..] + rest;
      SpaceRunIs(gap[1..], rest);
    }
  }

  lemma {:induction false} WordRunIs(word: string, rest: string)
    requires forall i :: 0 <= i < |word| ==> IsWordChar(word[i])
    requires rest == "" || !IsWordChar(rest[0])
    ensures WordRun(word + rest) == |word|
  {
    if word == "" {
      assert word + rest == rest;
    } else {
      assert (word + rest)[1..] == word[1..] + rest;
      WordRunIs(word[1..], rest);
    }
  }

  lemma {:induction false} BodyHead(body: string)
    requires IsBody(body) && body != ""
    ensures body[0] != '"'
    ensures if body[0] == '\\' then |body| >= 2 && body[1] != '\n' && IsBody(body[2..]) else IsBody(body[1..])
  {
  }

  /** A literal ends at its first unescaped quote, whatever follows. */
  lemma {:induction false} BodyRunIs(body: string, rest: string)
    requires IsBody(body)
    ensures BodyRun(body + "\"" + rest) == Some(|body|)
  {
    hide IsBody;
    var s := body + "\"" + rest;
    if body == "" {
      return;
    }
    BodyHead(body);
    if body[0] == '\\' {
      assert s[2..] == body[2..] + "\"" + rest;
      BodyRunIs(body[2..], rest);
    } else {
      assert s[1..] == body[1..] + "\"" + rest;
      BodyRunIs(body[1..], rest);
    }
  }

  lemma {:induction false} MatchTokenIs(l: Lexeme, rest: string)
    requires IsLexeme(l)
    requires l.kind == Space ==> rest == "" || !IsSpace(rest[0])
    requires l.kind == Word ==> rest == "" || !IsWordChar(rest[0])
    ensures MatchToken(l.text + rest) == Some(l)
  {
    var s := l.text + rest;
    FirstChar(l);
    assert s[0] == l.text[0] && s[..|l.text|] == l.text;
    match l.kind {
      case Space => SpaceRunIs(l.text, rest);
      case Word => WordRunIs(l.text, rest);
      case Str => MatchLiteral(l.text, rest);
      case _ =>
    }
  }

  lemma {:induction false} MatchLiteral(text: string, rest: string)
    requires IsLexeme(Lexeme(Str, text))
    ensures MatchToken(text + rest) == Some(Lexeme(Str, text))
  {
    hide MatchToken, BodyRun;
    var s := text + rest;
    var body := text[1..|text| - 1];
    BodyRunIs(body, rest);
    assert text == "\"" + body + "\"";
    assert s[1..] == body + "\"" + rest;
    LiteralMatches(s, |body|);
    assert s[..|text|] == text;
  }

  lemma {:induction false} LiteralMatches(s: string, n: nat)
    requires s != "" && s[0] == '"' && BodyRun(s[1..]) == Some(n)
    ensures MatchToken(s) == Some(Lexeme(Str, s[..n + 2]))
  {
  }

  /** The match at any point is the longest lexeme there, and there is one whenever any lexeme fits. */
  lemma {:induction false} LongestMatch(s: string, l: Lexeme)
    requires IsLexeme(l) && l.text <= s
    ensures s != "" && MatchToken(s).Some?
    ensures MatchToken(s).value.kind == l.kind && l.text <= MatchToken(s).value.text
  {
    FirstChar(l);
    var rest := s[|l.text|..];
    assert s == l.text + rest && s[0] == l.text[0];
    match l.kind {
      case Space =>
        SpaceRunAtLeast(s, l.text);
      case Word =>
        WordRunAtLeast(s, l.text);
      case _ => MatchTokenIs(l, rest);
    }
  }

  lemma {:induction false} SpaceRunAtLeast(s: string, gap: string)
    requires gap <= s && AllSpace(gap)
    ensures |gap| <= SpaceRun(s)
  {
    if gap != "" {
      assert s[0] == gap[0] && gap[1..] <= s[1..];
      SpaceRunAtLeast(s[1..], gap[1..]);
    }
  }

  lemma {:induction false} WordRunAtLeast(s: string, word: string)
    requires word <= s && forall i :: 0 <= i < |word| ==> IsWordChar(word[i])
    ensures |word| <= WordRun(s)
  {
    if word != "" {
      assert s[0] == word[0] && word[1..] <= s[1..];
      WordRunAtLeast(s[1..], word[1..]);
    }
  }

  /** Laying out separated lexemes and lexing the text gives those lexemes back. */
  lemma {:induction false} LexemesComplete(ls: seq<Lexeme>, position: nat)
    requires Separated(ls)
    ensures Lexemes(Concat(ls), position) == Ok(ls)
    decreases |ls|
  {
    hide *;
    if ls == [] {
      NoLexemes(position);
    } else {
      var l, tail := ls[0], ls[1..];
      SeparatedHead(ls);
      FirstChar(l);
      TailStarts(ls);
      MatchTokenIs(l, Concat(tail));
      LexemesComplete(tail, position + |l.text|);
      LexemesCons(l, Concat(tail), position, tail);
      assert ls == [l] + tail;
    }
  }

  lemma {:induction false} NoLexemes(position: nat)
    ensures Lexemes(Concat([]), position) == Ok([])
  {
  }

  lemma {:induction false} SeparatedHead(ls: seq<Lexeme>)
    requires Separated(ls) && ls != []
    ensures IsLexeme(ls[0]) && ls[0].kind != Bracket && Separated(ls[1..])
    ensures Concat(ls) == ls[0].text + Concat(ls[1..])
  {
  }

  /** What follows a whitespace run or a word starts with another kind of character. */
  lemma {:induction false} TailStarts(ls: seq<Lexeme>)
    requires Separated(ls) && ls != []
    ensures var rest := Concat(ls[1..]);
            && (ls[0].kind == Space && rest != "" ==> !IsSpace(rest[0]))
            && (ls[0].kind == Word && rest != "" ==> !IsWordChar(rest[0]))
  {
    var tail := ls[1..];
    if tail != [] {
      FirstChar(tail[0]);
      HeadIsPrefix(tail);
      assert Concat(tail)[0] == tail[0].text[0] && tail[0] == ls[1];
    }
  }

  /** Lexing succeeds with `ls` exactly when `ls` is a separated partition of the input. */
  lemma {:induction false} LexerExact(s: string, ls: seq<Lexeme>)
    ensures Lexemes(s, 0) == Ok(ls) <==> Separated(ls) && Concat(ls) == s
  {
    if Lexemes(s, 0) == Ok(ls) { LexemesSound(s, 0, ls); }
    if Separated(ls) && Concat(ls) == s { LexemesComplete(ls, 0); }
  }

  // --- string escapes -----------------------------------------------------------

  /** Reading escapes in one pass: \" and \\ stand for themselves, \c keeps its backslash. */
  function UnescapeOnePass(raw: string): string
    requires IsBody(raw)
  {
    if raw == "" then ""
    else if raw[0] != '\\' then [raw[0]] + UnescapeOnePass(raw[1..])
    else if raw[1] == '"' || raw[1] == '\\' then [raw[1]] + UnescapeOnePass(raw[2..])
    else ['\\', raw[1]] + UnescapeOnePass(raw[2..])
  }

  function Escape(v: string): (r: string)
    ensures IsBody(r)
  {
    if v == "" then ""
    else
      var rest := Escape(v[1..]);
      if v[0] == '"' || v[0] == '\\' then
        assert (['\\', v[0]] + rest)[2..] == rest;
        ['\\', v[0]] + rest
      else
        assert ([v[0]] + rest)[1..] == rest;
        [v[0]] + rest
  }

  lemma {:induction false} ReplaceStep(head: string, tail: string, what: string, sub: string)
    requires |what| == 2 && |head| == 1
    requires head[0] != what[0] || tail == "" || tail[0] != what[1]
    ensures Replace(head + tail, what, sub) == head + Replace(tail, what, sub)
  {
    var s := head + tail;
    assert s[1..] == tail;
    assert s[0] == head[0] && (tail != "" ==> s[1] == tail[0]);
  }

  lemma {:induction false} ReplaceHit(tail: string, what: string, sub: string)
    requires what != ""
    ensures Replace(what + tail, what, sub) == sub + Replace(tail, what, sub)
  {
    assert (what + tail)[|what|..] == tail;
  }

  const QUOTE := "\""
  const ESCAPED_QUOTE := "\\\""
  const SLASH := "\\"
  const TWO_SLASHES := "\\\\"

  lemma {:induction false} UnquoteChar(c: string, t: string)
    requires |c| == 1 && c[0] != '\\'
    ensures Unquote(c + t) == c + Unquote(t)
  {
    ReplaceStep(c, t, ESCAPED_QUOTE, QUOTE);
    ReplaceStep(c, Replace(t, ESCAPED_QUOTE, QUOTE), TWO_SLASHES, SLASH);
  }

  lemma {:induction false} UnquoteEscapedQuote(t: string)
    ensures Unquote(ESCAPED_QUOTE + t) == QUOTE + Unquote(t)
  {
    ReplaceHit(t, ESCAPED_QUOTE, QUOTE);
    ReplaceStep(QUOTE, Replace(t, ESCAPED_QUOTE, QUOTE), TWO_SLASHES, SLASH);
  }

  /** A backslash before anything but a quote survives the first replace. */
  lemma {:induction false} FirstReplaceKeeps(c: string, t: string)
    requires |c| == 1 && c[0] != '"' && (t == "" || t[0] != '"')
    ensures Replace(SLASH + (c + t), ESCAPED_QUOTE, QUOTE) == SLASH + (c + Replace(t, ESCAPED_QUOTE, QUOTE))
  {
    ReplaceStep(c, t, ESCAPED_QUOTE, QUOTE);
    ReplaceStep(SLASH, c + t, ESCAPED_QUOTE, QUOTE);
  }

  lemma {:induction false} UnquoteEscapedSlash(t: string)
    requires t == "" || t[0] != '"'
    ensures Unquote(SLASH + (SLASH + t)) == SLASH + Unquote(t)
  {
    var t1 := Replace(t, ESCAPED_QUOTE, QUOTE);
    FirstReplaceKeeps(SLASH, t);
    assert SLASH + (SLASH + t1) == TWO_SLASHES + t1;
    ReplaceHit(t1, TWO_SLASHES, SLASH);
  }

  lemma {:induction false} UnquoteOtherEscape(c: string, t: string)
    requires |c| == 1 && c[0] != '"' && c[0] != '\\' && (t == "" || t[0] != '"')
    ensures Unquote(SLASH + (c + t)) == SLASH + (c + Unquote(t))
  {
    var t1 := Replace(t, ESCAPED_QUOTE, QUOTE);
    FirstReplaceKeeps(c, t);
    ReplaceStep(c, t1, TWO_SLASHES, SLASH);
    ReplaceStep(SLASH, c + t1, TWO_SLASHES, SLASH);
  }

  /** The two successive replaces read every literal the lexer accepts in one pass. */
  lemma {:induction false} UnquoteIsOnePass(raw: string)
    requires IsBody(raw)
    ensures Unquote(raw) == UnescapeOnePass(raw)
  {
    if raw == "" {
    } else if raw[0] != '\\' {
      var t := raw[1..];
      UnquoteIsOnePass(t);
      assert raw == [raw[0]] + t;
      UnquoteChar([raw[0]], t);
    } else {
      var c, t := [raw[1]], raw[2..];
      UnquoteIsOnePass(t);
      assert raw == SLASH + (c + t);
      if raw[1] == '"' {
        assert raw == ESCAPED_QUOTE + t;
        UnquoteEscapedQuote(t);
      } else if raw[1] == '\\' {
        assert c == SLASH;
        UnquoteEscapedSlash(t);
      } else {
        UnquoteOtherEscape(c, t);
        assert SLASH + (c + UnescapeOnePass(t)) == ['\\', raw[1]] + UnescapeOnePass(t);
      }
    }
  }

  /** Quoting any string and reading the literal back is the identity. */
  lemma {:induction false} UnquoteEscape(v: string)
    ensures Unquote(Escape(v)) == v
  {
    UnquoteIsOnePass(Escape(v));
    UnescapeEscape(v);
  }

  lemma {:induction false} UnescapeEscape(v: string)
    ensures UnescapeOnePass(Escape(v)) == v
  {
    if v != "" {
      UnescapeEscape(v[1..]);
      assert v == [v[0]] + v[1..];
      if v[0] == '"' || v[0] == '\\' {
        assert Escape(v)[2..] == Escape(v[1..]);
      } else {
        assert Escape(v)[1..] == Escape(v[1..]);
      }
    }
  }
}
