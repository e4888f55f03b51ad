/**
 Writing a filter tree as text, and reading it back with `build_filter`
 (app/scim/filters.py): the round trip over the tokeniser and the parser together.
 */
module FilterPrinter {
  import opened Text
  import opened FilterLexer
  import opened FilterParser

  // --- build_filter -----------------------------------------------------------------

  /** None stands for "no filter": nothing but whitespace was given. */
  function FilterOf(a: AttributeMap, expression: string): Result<Option<Filter>, FilterError> {
    var stripped := Strip(expression);
    if stripped == "" then Ok(None)
    else match TokensFrom(stripped, 0)
         case Err(e) => Err(e)
         case Ok(ts) =>
           if ts == [] then Ok(None)
           else match ParseTokens(a, ts)
                case Err(e) => Err(e)
                case Ok(f) => Ok(Some(f))
  }

  method BuildFilter(a: AttributeMap, expression: string) returns (r: Result<Option<Filter>, FilterError>)
    ensures r == FilterOf(a, expression)
  {
    var stripped := Strip(expression);
    if stripped == "" {
      return Ok(None);
    }
    var tokens := Tokenize(stripped);
    if tokens.Err? {
      return Err(tokens.error);
    }
    if tokens.value == [] {
      return Ok(None);
    }
    var parser := new Parser(tokens.value, a);
    var f := parser.Parse();
    r := match f case Err(e) => Err(e) case Ok(value) => Ok(Some(value));
  }

  // --- printing -----------------------------------------------------------------------

  /** Trees whose leaves the attribute map supports. */
  predicate Supported(a: AttributeMap, f: Filter) {
    match f
    case And(l, r) => Supported(a, l) && Supported(a, r)
    case Or(l, r) => Supported(a, l) && Supported(a, r)
    case Not(inner) => Supported(a, inner)
    case _ => SupportedLeaf(a, f)
  }

  function Group(ts: seq<Token>): seq<Token> {
    [Token(KLParen, "(")] + ts + [Token(KRParen, ")")]
  }

  /** Parentheses only where precedence or left associativity needs them. */
  function OrTokens(f: Filter): seq<Token>
    decreases f, 2
  {
    if f.Or? then OrTokens(f.left) + [Token(KOr, "or")] + AndTokens(f.right) else AndTokens(f)
  }

  function AndTokens(f: Filter): seq<Token>
    decreases f, 1
  {
    match f
    case And(l, r) => AndTokens(l) + [Token(KAnd, "and")] + UnaryTokens(r)
    case Or(l, r) => Group(OrTokens(l) + [Token(KOr, "or")] + AndTokens(r))
    case _ => UnaryTokens(f)
  }

  function UnaryTokens(f: Filter): seq<Token>
    decreases f, 0
  {
    match f
    case Present(attribute) => [Token(KAttr, attribute), Token(KOp, "pr")]
    case Compare(attribute, operator, value) =>
      [Token(KAttr, attribute), Token(KOp, operator), Token(KValue, value)]
    case Not(inner) => [Token(KNot, "not")] + Group(OrTokens(inner))
    case And(l, r) => Group(AndTokens(l) + [Token(KAnd, "and")] + UnaryTokens(r))
    case Or(l, r) => Group(OrTokens(l) + [Token(KOr, "or")] + AndTokens(r))
  }

  function Print(f: Filter): string
    requires Spellable(OrTokens(f))
  {
    Concat(Spell(OrTokens(f)))
  }

  // --- the grammar derives the printed tokens -------------------------------------------

  lemma {:induction false} OrDerives(a: AttributeMap, l: seq<Token>, r: seq<Token>, f: Filter)
    requires f.Or? && IsOr(a, l, f.left) && IsAnd(a, r, f.right)
    ensures IsOr(a, l + [Token(KOr, "or")] + r, f)
  {
    hide IsAnd, IsUnary;
    var ts := l + [Token(KOr, "or")] + r;
    assert ts[..|l|] == l && ts[|l| + 1..] == r;
    assert JoinsOr(a, ts, f, |l|);
  }

  lemma {:induction false} AndDerives(a: AttributeMap, l: seq<Token>, r: seq<Token>, f: Filter)
    requires f.And? && IsAnd(a, l, f.left) && IsUnary(a, r, f.right)
    ensures IsAnd(a, l + [Token(KAnd, "and")] + r, f)
  {
    hide IsOr, IsUnary;
    var ts := l + [Token(KAnd, "and")] + r;
    assert ts[..|l|] == l && ts[|l| + 1..] == r;
    assert JoinsAnd(a, ts, f, |l|);
  }

  lemma {:induction false} NotDerivesGroup(a: AttributeMap, ts: seq<Token>, f: Filter)
    requires f.Not? && IsUnary(a, Group(ts), f.inner)
    ensures IsUnary(a, [Token(KNot, "not")] + Group(ts), f)
  {
    hide IsOr, IsComparison;
    var whole := [Token(KNot, "not")] + Group(ts);
    assert whole[1..] == Group(ts);
    assert whole[1] == Group(ts)[0];
  }

  lemma {:induction false} LooserDerives(a: AttributeMap, ts: seq<Token>, f: Filter)
    ensures IsUnary(a, ts, f) ==> IsAnd(a, ts, f)
    ensures IsAnd(a, ts, f) ==> IsOr(a, ts, f)
  {
    hide IsUnary;
  }

  lemma {:induction false} OrTokensDerive(a: AttributeMap, f: Filter)
    requires Supported(a, f)
    ensures IsOr(a, OrTokens(f), f)
    decreases f, 2
  {
    hide IsOr, IsAnd, AndTokens;
    if f.Or? {
      OrTokensDerive(a, f.left);
      AndTokensDerive(a, f.right);
      OrDerives(a, OrTokens(f.left), AndTokens(f.right), f);
    } else {
      AndTokensDerive(a, f);
      LooserDerives(a, AndTokens(f), f);
    }
  }

  lemma {:induction false} AndTokensDerive(a: AttributeMap, f: Filter)
    requires Supported(a, f)
    ensures IsAnd(a, AndTokens(f), f)
    decreases f, 1
  {
    hide IsAnd, IsUnary;
    if f.And? {
      AndTokensDerive(a, f.left);
      UnaryTokensDerive(a, f.right);
      AndDerives(a, AndTokens(f.left), UnaryTokens(f.right), f);
    } else {
      UnaryTokensDerive(a, f);
      LooserDerives(a, UnaryTokens(f), f);
    }
  }

  lemma {:induction false} GroupDerives(a: AttributeMap, ts: seq<Token>, f: Filter)
    requires IsOr(a, ts, f)
    ensures IsUnary(a, Group(ts), f)
  {
    hide IsOr, IsComparison;
    var whole := Group(ts);
    assert whole[1..|whole| - 1] == ts;
  }

  lemma {:induction false} LeafDerives(a: AttributeMap, f: Filter)
    requires SupportedLeaf(a, f)
    ensures IsUnary(a, UnaryTokens(f), f)
  {
    hide IsOr;
  }

  lemma {:induction false} UnaryTokensDerive(a: AttributeMap, f: Filter)
    requires Supported(a, f)
    ensures IsUnary(a, UnaryTokens(f), f)
    decreases f, 0
  {
    hide IsOr, IsAnd, IsUnary, OrTokens, AndTokens, Group, SupportedLeaf;
    match f {
      case Not(inner) =>
        OrTokensDerive(a, inner);
        GroupDerives(a, OrTokens(inner), inner);
        NotDerivesGroup(a, OrTokens(inner), f);
      case And(left, right) =>
        var ts := AndTokens(left) + [Token(KAnd, "and")] + UnaryTokens(right);
        AndTokensDerive(a, left);
        UnaryTokensDerive(a, right);
        AndDerives(a, AndTokens(left), UnaryTokens(right), f);
        LooserDerives(a, ts, f);
        GroupDerives(a, ts, f);
      case Or(left, right) =>
        OrTokensDerive(a, left);
        AndTokensDerive(a, right);
        OrDerives(a, OrTokens(left), AndTokens(right), f);
        GroupDerives(a, OrTokens(left) + [Token(KOr, "or")] + AndTokens(right), f);
      case _ => LeafDerives(a, f);
    }
  }

  lemma {:induction false} LooserIsShorter(f: Filter)
    ensures |OrTokens(f)| <= |AndTokens(f)| <= |UnaryTokens(f)| <= |OrTokens(f)| + 2
  {
  }

  /** No derivation of a tree is shorter than its printed form, so no parenthesis in it is spare. */
  lemma {:induction false} PrintedIsShortest(a: AttributeMap, ts: seq<Token>, f: Filter)
    ensures IsOr(a, ts, f) ==> |OrTokens(f)| <= |ts|
    ensures IsAnd(a, ts, f) ==> |AndTokens(f)| <= |ts|
    ensures IsUnary(a, ts, f) ==> |UnaryTokens(f)| <= |ts|
    decreases |ts|
  {
    LooserIsShorter(f);
    if IsUnary(a, ts, f) && !IsComparison(a, ts, f) {
      if KindAt(ts, 0, KLParen) {
        PrintedIsShortest(a, ts[1..|ts| - 1], f);
      } else {
        var group := ts[1..];
        GroupInner(a, group, f.inner);
        PrintedIsShortest(a, group[1..|group| - 1], f.inner);
      }
    }
    if IsAnd(a, ts, f) && !IsUnary(a, ts, f) {
      var k := AndJoin(a, ts, f);
      PrintedIsShortest(a, ts[..k], f.left);
      PrintedIsShortest(a, ts[k + 1..], f.right);
    }
    if IsOr(a, ts, f) && !IsAnd(a, ts, f) {
      var k := OrJoin(a, ts, f);
      PrintedIsShortest(a, ts[..k], f.left);
      PrintedIsShortest(a, ts[k + 1..], f.right);
    }
  }

  // --- spelling tokens ---------------------------------------------------------------------

  /** Names that read back as attributes rather than as keywords. */
  predicate IsName(w: string) {
    IsWord(w) && !IsKeyword(LowerAscii(w))
  }

  predicate SpellableToken(t: Token) {
    match t.kind
    case KLParen => t.value == "("
    case KRParen => t.value == ")"
    case KAnd => t.value == "and"
    case KOr => t.value == "or"
    case KNot => t.value == "not"
    case KOp => IsOperator(t.value)
    case KAttr => IsName(t.value)
    case KValue => true
  }

  predicate Spellable(ts: seq<Token>) {
    forall i :: 0 <= i < |ts| ==> SpellableToken(ts[i])
  }

  function TokenLexeme(t: Token): (l: Lexeme) {
    match t.kind
    case KLParen => Lexeme(LParen, "(")
    case KRParen => Lexeme(RParen, ")")
    case KValue => Lexeme(Str, "\"" + Escape(t.value) + "\"")
    case _ => Lexeme(Word, t.value)
  }

  const BLANK := Lexeme(Space, " ")

  function Spell(ts: seq<Token>): seq<Lexeme> {
    if |ts| == 0 then []
    else if |ts| == 1 then [TokenLexeme(ts[0])]
    else [TokenLexeme(ts[0]), BLANK] + Spell(ts[1..])
  }

  lemma {:induction false} TokenLexemeIs(t: Token)
    requires SpellableToken(t)
    ensures IsLexeme(TokenLexeme(t)) && TokenLexeme(t).kind !in {Space, Bracket}
    ensures LexemeTokens(TokenLexeme(t)) == [t]
  {
    hide IsLexeme, LexemeTokens, TokenLexeme;
    match t.kind {
      case KValue => ValueLexemeIs(t.value);
      case KAttr => WordLexemeIs(t);
      case KOp =>
        OperatorsAreWords(t.value);
        WordLexemeIs(t);
      case KLParen => ParenLexemeIs(t);
      case KRParen => ParenLexemeIs(t);
      case _ =>
        KeywordsAreLower();
        WordLexemeIs(t);
    }
  }

  lemma {:induction false} ValueLexemeIs(v: string)
    ensures var l := TokenLexeme(Token(KValue, v));
            IsLexeme(l) && l.kind == Str && LexemeTokens(l) == [Token(KValue, v)]
  {
    hide Unquote, Escape, IsBody;
    var e := Escape(v);
    var text := "\"" + e + "\"";
    assert text[1..|text| - 1] == e;
    UnquoteEscape(v);
  }

  lemma {:induction false} ParenLexemeIs(t: Token)
    requires (t.kind == KLParen && t.value == "(") || (t.kind == KRParen && t.value == ")")
    ensures IsLexeme(TokenLexeme(t)) && TokenLexeme(t).kind in {LParen, RParen}
    ensures LexemeTokens(TokenLexeme(t)) == [t]
  {
  }

  lemma {:induction false} WordLexemeIs(t: Token)
    requires t.kind in {KAnd, KOr, KNot, KOp, KAttr} && IsWord(t.value) && WordToken(t.value) == t
    ensures var l := TokenLexeme(t);
            IsLexeme(l) && l.kind == Word && LexemeTokens(l) == [t]
  {
    hide IsWord, WordToken;
  }

  lemma {:induction false} OperatorsAreWords(w: string)
    requires IsOperator(w)
    ensures IsWord(w) && WordToken(w) == Token(KOp, w)
  {
    assert |w| == 2;
    assert w == [w[0], w[1]];
    assert LowerAscii(w) == w;
  }

  lemma {:induction false} KeywordsAreLower()
    ensures IsWord("and") && WordToken("and") == Token(KAnd, "and")
    ensures IsWord("or") && WordToken("or") == Token(KOr, "or")
    ensures IsWord("not") && WordToken("not") == Token(KNot, "not")
  {
    assert LowerAscii("and") == "and" && LowerAscii("or") == "or" && LowerAscii("not") == "not";
  }

  lemma {:induction false} SpellFirst(t: Token, tail: seq<Lexeme>)
    requires SpellableToken(t) && Separated(tail) && tail != [] && tail[0].kind !in {Space, Bracket}
    ensures var ls := [TokenLexeme(t), BLANK] + tail;
            && Separated(ls) && TokensOf(ls) == [t] + TokensOf(tail) && ls[0].kind !in {Space, Bracket}
  {
    hide Separated, TokensOf, TokenLexeme, SpellableToken;
    var l := TokenLexeme(t);
    TokenLexemeIs(t);
    BlankIs();
    SeparatedCons(BLANK, tail);
    SeparatedCons(l, [BLANK] + tail);
    assert [l, BLANK] + tail == [l] + ([BLANK] + tail);
    assert [] + TokensOf(tail) == TokensOf(tail);
  }

  lemma {:induction false} BlankIs()
    ensures IsLexeme(BLANK) && LexemeTokens(BLANK) == []
  {
  }

  lemma {:induction false} SpellReads(ts: seq<Token>)
    requires Spellable(ts)
    ensures Separated(Spell(ts)) && TokensOf(Spell(ts)) == ts
    ensures ts != [] ==> Spell(ts) != [] && Spell(ts)[0].kind !in {Space, Bracket}
    decreases |ts|
  {
    hide TokenLexeme, SpellableToken, IsLexeme, LexemeTokens;
    if |ts| == 1 {
      TokenLexemeIs(ts[0]);
      SeparatedCons(TokenLexeme(ts[0]), []);
      assert [TokenLexeme(ts[0])] + [] == Spell(ts) && [ts[0]] + [] == ts;
    } else if |ts| > 1 {
      SpellReads(ts[1..]);
      SpellFirst(ts[0], Spell(ts[1..]));
      assert ts == [ts[0]] + ts[1..];
    }
  }

  // --- names in the attribute map -------------------------------------------------------------

  predicate NamesAttributes(a: AttributeMap) {
    forall key :: key in a ==> IsName(key)
  }

  lemma {:induction false} ResolvedIsName(a: AttributeMap, path: string)
    requires NamesAttributes(a) && Resolve(a, path).Ok?
    ensures IsName(path)
  {
    var key := LowerAscii(path);
    assert IsName(key);
    forall i | 0 <= i < |path| ensures IsWordChar(path[i]) {
      assert IsWordChar(key[i]);
    }
    assert LowerAscii(key) == key;
  }

  lemma {:induction false} LeafIsSpellable(a: AttributeMap, f: Filter)
    requires NamesAttributes(a) && SupportedLeaf(a, f)
    ensures OrTokens(f) == AndTokens(f) == UnaryTokens(f) && Spellable(UnaryTokens(f))
  {
    ResolvedIsName(a, f.attribute);
  }

  lemma {:induction false} SpellableJoin(l: seq<Token>, joint: Token, r: seq<Token>)
    requires Spellable(l) && Spellable(r) && SpellableToken(joint)
    ensures Spellable(l + [joint] + r) && Spellable(Group(l + [joint] + r))
  {
  }

  lemma {:induction false} SpellableNot(ts: seq<Token>)
    requires Spellable(ts)
    ensures Spellable([Token(KNot, "not")] + Group(ts))
  {
  }

  lemma {:induction false} PrintedIsSpellable(a: AttributeMap, f: Filter)
    requires NamesAttributes(a) && Supported(a, f)
    ensures Spellable(OrTokens(f)) && Spellable(AndTokens(f)) && Spellable(UnaryTokens(f))
    decreases f
  {
    match f {
      case Present(attribute) => LeafIsSpellable(a, f);
      case Compare(attribute, operator, value) => LeafIsSpellable(a, f);
      case And(l, r) =>
        PrintedIsSpellable(a, l);
        PrintedIsSpellable(a, r);
        SpellableJoin(AndTokens(l), Token(KAnd, "and"), UnaryTokens(r));
        assert OrTokens(f) == AndTokens(f) && UnaryTokens(f) == Group(AndTokens(f));
      case Or(l, r) =>
        PrintedIsSpellable(a, l);
        PrintedIsSpellable(a, r);
        SpellableJoin(OrTokens(l), Token(KOr, "or"), AndTokens(r));
        assert AndTokens(f) == UnaryTokens(f) == Group(OrTokens(f));
      case Not(inner) =>
        PrintedIsSpellable(a, inner);
        SpellableNot(OrTokens(inner));
        assert OrTokens(f) == AndTokens(f) == UnaryTokens(f);
    }
  }

  // --- surrounding whitespace -------------------------------------------------------------------

  lemma {:induction false} SplitLast(ls: seq<Lexeme>)
    requires Separated(ls) && ls != []
    ensures var front, last := ls[..|ls| - 1], ls[|ls| - 1];
            && Separated(front) && IsLexeme(last) && last.kind != Bracket
            && Concat(ls) == Concat(front) + last.text
            && TokensOf(ls) == TokensOf(front) + LexemeTokens(last)
            && (last.kind == Space && front != [] ==> front[|front| - 1].kind != Space)
    decreases |ls|
  {
    hide IsLexeme, LexemeTokens;
    var front, last := ls[..|ls| - 1], ls[|ls| - 1];
    if |ls| == 1 {
      assert front == [] && ls == [last];
      SingleLexeme(last);
    } else {
      var l, rest := ls[0], ls[1..];
      var middle := rest[..|rest| - 1];
      SplitLast(rest);
      assert front == [l] + middle && rest[|rest| - 1] == last && ls == [l] + rest;
      assert middle != [] ==> middle[0] == ls[1];
      FrontSplits(l, middle, rest, last);
    }
  }

  lemma {:induction false} SingleLexeme(l: Lexeme)
    requires Separated([l])
    ensures IsLexeme(l) && l.kind != Bracket && Separated([])
    ensures Concat([l]) == Concat([]) + l.text && TokensOf([l]) == TokensOf([]) + LexemeTokens(l)
  {
    hide IsLexeme, LexemeTokens;
    assert [l][1..] == [];
    assert Concat([l]) == l.text + Concat([]) && Concat([]) == "";
    assert TokensOf([l]) == LexemeTokens(l) + TokensOf([]) && TokensOf([]) == [];
  }

  lemma {:induction false} FrontSplits(l: Lexeme, middle: seq<Lexeme>, rest: seq<Lexeme>, last: Lexeme)
    requires Separated([l] + rest) && Separated(rest) && rest != [] && Separated(middle) && IsLexeme(l) && IsLexeme(last)
    requires middle != [] ==> middle[0] == rest[0]
    requires Concat(rest) == Concat(middle) + last.text && TokensOf(rest) == TokensOf(middle) + LexemeTokens(last)
    ensures Separated([l] + middle)
    ensures Concat([l] + rest) == Concat([l] + middle) + last.text
    ensures TokensOf([l] + rest) == TokensOf([l] + middle) + LexemeTokens(last)
  {
    hide IsLexeme, LexemeTokens, Concat, TokensOf;
    HeadDiffers(l, rest);
    SeparatedCons(l, rest);
    SeparatedCons(l, middle);
  }

  lemma {:induction false} HeadDiffers(l: Lexeme, rest: seq<Lexeme>)
    requires Separated([l] + rest)
    ensures l.kind != Bracket && (rest != [] && l.kind in {Space, Word} ==> rest[0].kind != l.kind)
  {
  }

  lemma {:induction false} LastChar(l: Lexeme)
    requires IsLexeme(l) && l.kind != Space
    ensures l.text != "" && !IsSpace(l.text[|l.text| - 1])
  {
  }

  lemma {:induction false} DropFirstBlank(ls: seq<Lexeme>) returns (before: string, core: seq<Lexeme>)
    requires Separated(ls)
    ensures AllSpace(before) && Concat(ls) == before + Concat(core)
    ensures Separated(core) && TokensOf(core) == TokensOf(ls)
    ensures core != [] ==> core[0].kind != Space
  {
    before, core := "", ls;
    if ls != [] && ls[0].kind == Space {
      before, core := ls[0].text, ls[1..];
    }
  }

  lemma {:induction false} DropLastBlank(ls: seq<Lexeme>) returns (core: seq<Lexeme>, after: string)
    requires Separated(ls)
    ensures AllSpace(after) && Concat(ls) == Concat(core) + after
    ensures core != [] ==> ls != [] && core[0] == ls[0]
    ensures Separated(core) && TokensOf(core) == TokensOf(ls)
    ensures core != [] ==> core[|core| - 1].kind != Space
  {
    core, after := ls, "";
    if ls != [] {
      SplitLast(ls);
      if ls[|ls| - 1].kind == Space {
        core, after := ls[..|ls| - 1], ls[|ls| - 1].text;
      }
    }
  }

  lemma {:induction false} UnpaddedIsTrimmed(ls: seq<Lexeme>)
    requires Separated(ls)
    requires ls != [] ==> ls[0].kind != Space && ls[|ls| - 1].kind != Space
    ensures Trimmed(Concat(ls))
  {
    if ls != [] {
      FirstChar(ls[0]);
      SplitLast(ls);
      LastChar(ls[|ls| - 1]);
    }
  }

  /** Stripping the text of a layout only removes its outer whitespace lexemes. */
  lemma {:induction false} StripLayout(ls: seq<Lexeme>) returns (core: seq<Lexeme>)
    requires Separated(ls)
    ensures Separated(core) && TokensOf(core) == TokensOf(ls) && Concat(core) == Strip(Concat(ls))
  {
    var before, middle := DropFirstBlank(ls);
    var inner, after := DropLastBlank(middle);
    core := inner;
    UnpaddedIsTrimmed(core);
    StripOf(Concat(ls), before, Concat(core), after);
  }

  lemma {:induction false} StripOf(whole: string, before: string, text: string, after: string)
    requires whole == before + (text + after) && AllSpace(before) && AllSpace(after) && Trimmed(text)
    ensures Strip(whole) == text
  {
    StripGaps(before, text, after);
    assert before + text + after == whole;
  }

  // --- round trips ----------------------------------------------------------------------------

  /**
   However a supported filter is laid out (any spacing, any case of its keywords, bare or quoted
   values), if its lexemes carry the printed tokens then building it gives exactly that tree.
   */
  lemma {:induction false} LayoutRoundTrip(a: AttributeMap, f: Filter, ls: seq<Lexeme>)
    requires Supported(a, f)
    requires Separated(ls) && TokensOf(ls) == OrTokens(f)
    ensures FilterOf(a, Concat(ls)) == Ok(Some(f))
  {
    hide Strip, Supported, OrFrom, IsOr, IsLexeme, LexemeTokens, MatchToken;
    var core := StripLayout(ls);
    LexemesComplete(core, 0);
    OrTokensDerive(a, f);
    ParserDecidesGrammar(a, OrTokens(f), f);
  }

  /** Printing any supported tree and building it again returns exactly that tree. */
  lemma {:induction false} PrintRoundTrip(a: AttributeMap, f: Filter)
    requires NamesAttributes(a) && Supported(a, f)
    ensures Spellable(OrTokens(f)) && FilterOf(a, Print(f)) == Ok(Some(f))
  {
    PrintedIsSpellable(a, f);
    SpellReads(OrTokens(f));
    LayoutRoundTrip(a, f, Spell(OrTokens(f)));
  }

  lemma {:induction false} TrimmedHasTokens(ls: seq<Lexeme>)
    requires Separated(ls) && Trimmed(Concat(ls)) && Concat(ls) != ""
    ensures TokensOf(ls) != []
  {
    FirstChar(ls[0]);
    HeadIsPrefix(ls);
    assert Concat(ls)[0] == ls[0].text[0];
    assert |LexemeTokens(ls[0])| == 1;
  }

  /**
   A filter builds to a tree exactly when its text, without the outer whitespace, is a layout of tokens
   from which the grammar derives that tree; it builds to no filter exactly when it is blank; otherwise
   it is an error.
   */
  lemma {:induction false} BuildsExactly(a: AttributeMap, before: string, text: string, after: string, f: Filter)
    requires AllSpace(before) && AllSpace(after) && Trimmed(text)
    ensures var r := FilterOf(a, before + text + after);
            && (r == Ok(Some(f)) <==> exists ls :: Separated(ls) && Concat(ls) == text && text != "" && IsOr(a, TokensOf(ls), f))
            && (r == Ok(None) <==> text == "")
  {
    hide IsOr, OrFrom, Lexemes, MatchToken;
    StripGaps(before, text, after);
    if text != "" {
      if Lexemes(text, 0).Ok? {
        var ls := Lexemes(text, 0).value;
        LexerExact(text, ls);
        TrimmedHasTokens(ls);
        ParserDecidesGrammar(a, TokensOf(ls), f);
      }
      forall ls | Separated(ls) && Concat(ls) == text ensures Lexemes(text, 0) == Ok(ls) {
        LexerExact(text, ls);
      }
    }
  }

  /** Everything the builder accepts is a supported tree. */
  lemma {:induction false} BuiltIsSupported(a: AttributeMap, expression: string, f: Filter)
    requires FilterOf(a, expression) == Ok(Some(f))
    ensures Supported(a, f)
  {
    var ts := TokensFrom(Strip(expression), 0).value;
    ParserDecidesGrammar(a, ts, f);
    DerivedIsSupported(a, ts, f);
  }

  lemma {:induction false} DerivedIsSupported(a: AttributeMap, ts: seq<Token>, f: Filter)
    requires IsOr(a, ts, f) || IsAnd(a, ts, f) || IsUnary(a, ts, f)
    ensures Supported(a, f)
    decreases |ts|
  {
    if IsUnary(a, ts, f) {
      if !IsComparison(a, ts, f) {
        if KindAt(ts, 0, KLParen) {
          DerivedIsSupported(a, ts[1..|ts| - 1], f);
        } else {
          DerivedIsSupported(a, ts[1..], f.inner);
        }
      }
    } else if IsAnd(a, ts, f) {
      var k := AndJoin(a, ts, f);
      DerivedIsSupported(a, ts[..k], f.left);
      DerivedIsSupported(a, ts[k + 1..], f.right);
    } else {
      var k := OrJoin(a, ts, f);
      DerivedIsSupported(a, ts[..k], f.left);
      DerivedIsSupported(a, ts[k + 1..], f.right);
    }
  }

  // --- the attribute maps of app/scim/router.py ----------------------------------------------------

  const USER_ATTRIBUTES: AttributeMap := map[
    "id" := Column("id", false),
    "username" := Column("user_name", false),
    "externalid" := Column("external_id", false),
    "displayname" := Column("display_name", false),
    "name.givenname" := Column("given_name", false),
    "name.familyname" := Column("family_name", false),
    "emails" := Column("email", false),
    "emails.value" := Column("email", false),
    "active" := Column("active", true)
  ]

  const GROUP_ATTRIBUTES: AttributeMap := map[
    "id" := Column("id", false),
    "displayname" := Column("display_name", false),
    "externalid" := Column("external_id", false)
  ]

  /** The round trip holds on both deployed attribute maps. */
  lemma {:induction false} DeployedRoundTrip(f: Filter)
    ensures Supported(USER_ATTRIBUTES, f) ==> Spellable(OrTokens(f)) && FilterOf(USER_ATTRIBUTES, Print(f)) == Ok(Some(f))
    ensures Supported(GROUP_ATTRIBUTES, f) ==> Spellable(OrTokens(f)) && FilterOf(GROUP_ATTRIBUTES, Print(f)) == Ok(Some(f))
  {
    DeployedNames();
    if Supported(USER_ATTRIBUTES, f) { PrintRoundTrip(USER_ATTRIBUTES, f); }
    if Supported(GROUP_ATTRIBUTES, f) { PrintRoundTrip(GROUP_ATTRIBUTES, f); }
  }

  predicate IsLowerPath(w: string) {
    forall i :: 0 <= i < |w| ==> 'a' <= w[i] <= 'z' || w[i] == '.'
  }

  lemma {:induction false} KeywordsAreShort(w: string)
    ensures IsKeyword(w) ==> 2 <= |w| <= 5
  {
  }

  lemma {:induction false} LowerPathIsName(w: string)
    requires |w| > 5 && IsLowerPath(w)
    ensures IsName(w)
  {
    assert LowerAscii(w) == w;
    KeywordsAreShort(w);
  }

  lemma {:induction false} DeployedNames()
    ensures NamesAttributes(USER_ATTRIBUTES) && NamesAttributes(GROUP_ATTRIBUTES)
  {
    hide IsName;
    assert IsName("id") by { IdIsName(); }
    SimpleNames();
    DottedNames();
  }

  lemma {:induction false} IdIsName()
    ensures IsName("id")
  {
    assert LowerAscii("id") == "id";
  }

  lemma {:induction false} SimpleNames()
    ensures IsName("username") && IsName("externalid") && IsName("displayname") && IsName("emails") && IsName("active")
  {
    hide IsName;
    LowerPathIsName("username");
    LowerPathIsName("externalid");
    LowerPathIsName("displayname");
    LowerPathIsName("emails");
    LowerPathIsName("active");
  }

  lemma {:induction false} DottedNames()
    ensures IsName("name.givenname") && IsName("name.familyname") && IsName("emails.value")
  {
    hide IsName;
    LowerPathIsName("name.givenname");
    LowerPathIsName("name.familyname");
    LowerPathIsName("emails.value");
  }
}
