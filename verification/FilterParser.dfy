/**
 The recursive-descent parser of app/scim/filters.py. Its methods move a cursor over the
 tokens; the `From` functions specify them, and the `Is` predicates are the grammar they decide.
 */
module FilterParser {
  import opened Text
  import opened FilterLexer

  datatype Column = Column(name: string, isBoolean: bool)

  /** Lower-case SCIM attribute paths and the columns they stand for. */
  type AttributeMap = map<string, Column>

  datatype Filter =
    | Present(attribute: string)
    | Compare(attribute: string, operator: string, value: string)
    | And(left: Filter, right: Filter)
    | Or(left: Filter, right: Filter)
    | Not(inner: Filter)

  datatype Outcome = Parsed(filter: Filter, next: nat) | Failed(error: FilterError)

  function Resolve(a: AttributeMap, path: string): Result<Column, FilterError> {
    var key := LowerAscii(path);
    if key in a then Ok(a[key]) else Err(UnknownAttribute(path))
  }

  /** The leaf filters the attribute map can express: boolean columns only take eq and ne. */
  predicate SupportedLeaf(a: AttributeMap, f: Filter) {
    match f
    case Present(attribute) => Resolve(a, attribute).Ok?
    case Compare(attribute, operator, _) =>
      && operator in COMPARISON
      && Resolve(a, attribute).Ok?
      && (Resolve(a, attribute).value.isBoolean ==> operator in {"eq", "ne"})
    case _ => false
  }

  // --- the grammar ---------------------------------------------------------------

  predicate KindAt(ts: seq<Token>, i: int, kind: TokenKind) {
    0 <= i < |ts| && ts[i].kind == kind
  }

  /** comparison := attr "pr" | attr op (value | attr) */
  predicate IsComparison(a: AttributeMap, ts: seq<Token>, f: Filter) {
    && SupportedLeaf(a, f)
    && KindAt(ts, 0, KAttr) && KindAt(ts, 1, KOp)
    && ts[0].value == f.attribute
    && if f.Present? then |ts| == 2 && ts[1].value == "pr"
       else |ts| == 3 && ts[2].kind in {KValue, KAttr} && ts[1].value == f.operator != "pr" && ts[2].value == f.value
  }

  /** unary := "not" unary-starting-with-a-group | "(" or ")" | comparison */
  ghost predicate IsUnary(a: AttributeMap, ts: seq<Token>, f: Filter)
    decreases |ts|, 0
  {
    || IsComparison(a, ts, f)
    || (KindAt(ts, 0, KLParen) && |ts| >= 2 && KindAt(ts, |ts| - 1, KRParen) && IsOr(a, ts[1..|ts| - 1], f))
    || (f.Not? && KindAt(ts, 0, KNot) && KindAt(ts, 1, KLParen) && IsUnary(a, ts[1..], f.inner))
  }

  /** and := unary | and "and" unary */
  ghost predicate IsAnd(a: AttributeMap, ts: seq<Token>, f: Filter)
    decreases |ts|, 1
  {
    || IsUnary(a, ts, f)
    || (f.And? && exists k :: JoinsAnd(a, ts, f, k))
  }

  ghost predicate JoinsAnd(a: AttributeMap, ts: seq<Token>, f: Filter, k: int)
    requires f.And?
    decreases |ts|, 0
  {
    KindAt(ts, k, KAnd) && IsAnd(a, ts[..k], f.left) && IsUnary(a, ts[k + 1..], f.right)
  }

  /** or := and | or "or" and */
  ghost predicate IsOr(a: AttributeMap, ts: seq<Token>, f: Filter)
    decreases |ts|, 2
  {
    || IsAnd(a, ts, f)
    || (f.Or? && exists k :: JoinsOr(a, ts, f, k))
  }

  ghost predicate JoinsOr(a: AttributeMap, ts: seq<Token>, f: Filter, k: int)
    requires f.Or?
    decreases |ts|, 0
  {
    KindAt(ts, k, KOr) && IsOr(a, ts[..k], f.left) && IsAnd(a, ts[k + 1..], f.right)
  }

  // --- what each method computes ----------------------------------------------------

  function OrFrom(a: AttributeMap, ts: seq<Token>, i: nat): (r: Outcome)
    requires i <= |ts|
    ensures r.Parsed? ==> i < r.next <= |ts|
    decreases |ts| - i, 4
  {
    match AndFrom(a, ts, i)
    case Failed(e) => Failed(e)
    case Parsed(f, j) => OrRest(a, ts, f, j)
  }

  function OrRest(a: AttributeMap, ts: seq<Token>, left: Filter, i: nat): (r: Outcome)
    requires i <= |ts|
    ensures r.Parsed? ==> i <= r.next <= |ts|
    decreases |ts| - i, 3
  {
    if !KindAt(ts, i, KOr) then Parsed(left, i)
    else match AndFrom(a, ts, i + 1)
         case Failed(e) => Failed(e)
         case Parsed(right, j) => OrRest(a, ts, Or(left, right), j)
  }

  function AndFrom(a: AttributeMap, ts: seq<Token>, i: nat): (r: Outcome)
    requires i <= |ts|
    ensures r.Parsed? ==> i < r.next <= |ts|
    decreases |ts| - i, 2
  {
    match UnaryFrom(a, ts, i)
    case Failed(e) => Failed(e)
    case Parsed(f, j) => AndRest(a, ts, f, j)
  }

  function AndRest(a: AttributeMap, ts: seq<Token>, left: Filter, i: nat): (r: Outcome)
    requires i <= |ts|
    ensures r.Parsed? ==> i <= r.next <= |ts|
    decreases |ts| - i, 1
  {
    if !KindAt(ts, i, KAnd) then Parsed(left, i)
    else match UnaryFrom(a, ts, i + 1)
         case Failed(e) => Failed(e)
         case Parsed(right, j) => AndRest(a, ts, And(left, right), j)
  }

  function UnaryFrom(a: AttributeMap, ts: seq<Token>, i: nat): (r: Outcome)
    requires i <= |ts|
    ensures r.Parsed? ==> i < r.next <= |ts|
    decreases |ts| - i, 0
  {
    if KindAt(ts, i, KNot) then
      if !KindAt(ts, i + 1, KLParen) then Failed(NotNeedsGroup)
      else match UnaryFrom(a, ts, i + 1)
           case Failed(e) => Failed(e)
           case Parsed(f, j) => Parsed(Not(f), j)
    else if KindAt(ts, i, KLParen) then
      match OrFrom(a, ts, i + 1)
      case Failed(e) => Failed(e)
      case Parsed(f, j) => if KindAt(ts, j, KRParen) then Parsed(f, j + 1) else Failed(UnbalancedParentheses)
    else ComparisonFrom(a, ts, i)
  }

  function ComparisonFrom(a: AttributeMap, ts: seq<Token>, i: nat): (r: Outcome)
    requires i <= |ts|
    ensures r.Parsed? ==> i < r.next <= |ts|
  {
    if i >= |ts| then Failed(UnexpectedEnd)
    else if ts[i].kind != KAttr then Failed(ExpectedAttribute)
    else match Resolve(a, ts[i].value)
         case Err(e) => Failed(e)
         case Ok(column) =>
           if i + 1 >= |ts| then Failed(UnexpectedEnd)
           else if ts[i + 1].kind != KOp then Failed(ExpectedOperator)
           else if ts[i + 1].value == "pr" then Parsed(Present(ts[i].value), i + 2)
           else if i + 2 >= |ts| then Failed(UnexpectedEnd)
           else if ts[i + 2].kind !in {KValue, KAttr} then Failed(ExpectedValue)
           else match CheckOperator(column, ts[i + 1].value)
                case Some(e) => Failed(e)
                case None => Parsed(Compare(ts[i].value, ts[i + 1].value, ts[i + 2].value), i + 3)
  }

  /** The error `_compare` raises for an operator its column does not take. */
  function CheckOperator(column: Column, operator: string): Option<FilterError> {
    if operator !in (if column.isBoolean then {"eq", "ne"} else COMPARISON)
    then Some(OperatorNeedsText(operator)) else None
  }

  function ParseTokens(a: AttributeMap, ts: seq<Token>): Result<Filter, FilterError> {
    match OrFrom(a, ts, 0)
    case Failed(e) => Err(e)
    case Parsed(f, j) => if j < |ts| then Err(TrailingToken) else Ok(f)
  }

  // --- the parser object ---------------------------------------------------------------

  class Parser {
    const tokens: seq<Token>
    const attributes: AttributeMap
    var position: nat

    constructor (tokens: seq<Token>, attributes: AttributeMap)
      ensures this.tokens == tokens && this.attributes == attributes && position == 0
    {
      this.tokens := tokens;
      this.attributes := attributes;
      position := 0;
    }

    /** After a successful call the cursor stands where the outcome says; an error ends the parse. */
    ghost predicate Yields(r: Result<Filter, FilterError>, o: Outcome)
      reads this
    {
      match o
      case Failed(e) => r == Err(e)
      case Parsed(f, j) => r == Ok(f) && position == j
    }

    predicate At(kind: TokenKind)
      reads this
    {
      KindAt(tokens, position, kind)
    }

    method Peek() returns (token: Option<Token>)
      ensures token == if position < |tokens| then Some(tokens[position]) else None
    {
      token := if position < |tokens| then Some(tokens[position]) else None;
    }

    method Next() returns (r: Result<Token, FilterError>)
      modifies this
      ensures old(position) < |tokens| ==> r == Ok(tokens[old(position)]) && position == old(position) + 1
      ensures old(position) >= |tokens| ==> r == Err(UnexpectedEnd) && position == old(position)
    {
      var token := Peek();
      if token.None? {
        return Err(UnexpectedEnd);
      }
      position := position + 1;
      return Ok(token.value);
    }

    method Parse() returns (r: Result<Filter, FilterError>)
      requires position == 0
      modifies this
      ensures r == ParseTokens(attributes, tokens)
    {
      r := ParseOr();
      if r.Ok? {
        var token := Peek();
        if token.Some? {
          return Err(TrailingToken);
        }
      }
    }

    method ParseOr() returns (r: Result<Filter, FilterError>)
      requires position <= |tokens|
      modifies this
      ensures Yields(r, OrFrom(attributes, tokens, old(position)))
      decreases |tokens| - position, 4
    {
      hide AndFrom;
      ghost var start := position;
      r := ParseAnd();
      if r.Err? { return; }
      var left := r.value;
      while At(KOr)
        invariant start < position <= |tokens|
        invariant OrFrom(attributes, tokens, start) == OrRest(attributes, tokens, left, position)
        decreases |tokens| - position
      {
        var _ := Next();
        r := ParseAnd();
        if r.Err? { return; }
        left := Or(left, r.value);
      }
      r := Ok(left);
    }

    method ParseAnd() returns (r: Result<Filter, FilterError>)
      requires position <= |tokens|
      modifies this
      ensures Yields(r, AndFrom(attributes, tokens, old(position)))
      decreases |tokens| - position, 2
    {
      hide UnaryFrom;
      ghost var start := position;
      r := ParseUnary();
      if r.Err? { return; }
      var left := r.value;
      while At(KAnd)
        invariant start < position <= |tokens|
        invariant AndFrom(attributes, tokens, start) == AndRest(attributes, tokens, left, position)
        decreases |tokens| - position
      {
        var _ := Next();
        r := ParseUnary();
        if r.Err? { return; }
        left := And(left, r.value);
      }
      r := Ok(left);
    }

    method ParseUnary() returns (r: Result<Filter, FilterError>)
      requires position <= |tokens|
      modifies this
      ensures Yields(r, UnaryFrom(attributes, tokens, old(position)))
      decreases |tokens| - position, 0
    {
      if At(KNot) {
        var _ := Next();
        if !At(KLParen) {
          return Err(NotNeedsGroup);
        }
        r := ParseUnary();
        if r.Ok? {
          r := Ok(Not(r.value));
        }
      } else if At(KLParen) {
        var _ := Next();
        r := ParseOr();
        if r.Err? { return; }
        if !At(KRParen) {
          return Err(UnbalancedParentheses);
        }
        var _ := Next();
      } else {
        r := ParseComparison();
      }
    }

    method ParseComparison() returns (r: Result<Filter, FilterError>)
      requires position <= |tokens|
      modifies this
      ensures Yields(r, ComparisonFrom(attributes, tokens, old(position)))
    {
      var attribute := Next();
      if attribute.Err? { return Err(attribute.error); }
      if attribute.value.kind != KAttr { return Err(ExpectedAttribute); }
      var column := Resolve(attributes, attribute.value.value);
      if column.Err? { return Err(column.error); }

      var operator := Next();
      if operator.Err? { return Err(operator.error); }
      if operator.value.kind != KOp { return Err(ExpectedOperator); }
      if operator.value.value == "pr" { return Ok(Present(attribute.value.value)); }

      var value := Next();
      if value.Err? { return Err(value.error); }
      if value.value.kind !in {KValue, KAttr} { return Err(ExpectedValue); }
      var fault := CheckOperator(column.value, operator.value.value);
      if fault.Some? { return Err(fault.value); }
      r := Ok(Compare(attribute.value.value, operator.value.value, value.value.value));
    }
  }

  // --- the parser decides the grammar ---------------------------------------------------

  lemma {:induction false} ComparisonExact(a: AttributeMap, ts: seq<Token>, i: nat, j: nat, f: Filter)
    requires i <= j <= |ts|
    ensures ComparisonFrom(a, ts, i) == Parsed(f, j) <==> IsComparison(a, ts[i..j], f)
  {
  }

  lemma {:induction false} OrSound(a: AttributeMap, ts: seq<Token>, i: nat)
    requires i <= |ts| && OrFrom(a, ts, i).Parsed?
    ensures var r := OrFrom(a, ts, i); IsOr(a, ts[i..r.next], r.filter)
    decreases |ts| - i, 4
  {
    var first := AndFrom(a, ts, i);
    AndSound(a, ts, i);
    OrRestSound(a, ts, i, first.filter, first.next);
  }

  /** Two derived stretches with an `or` between them. */
  lemma {:induction false} OrJoined(a: AttributeMap, ts: seq<Token>, i: nat, m: nat, j: nat, left: Filter, right: Filter)
    requires i <= m < j <= |ts| && KindAt(ts, m, KOr) && IsOr(a, ts[i..m], left) && IsAnd(a, ts[m + 1..j], right)
    ensures IsOr(a, ts[i..j], Or(left, right))
  {
    hide IsAnd, IsUnary;
    var whole := ts[i..j];
    SplitSlices(ts, i, m, j);
    assert KindAt(whole, m - i, KOr);
    assert JoinsOr(a, whole, Or(left, right), m - i);
  }

  lemma {:induction false} AndJoined(a: AttributeMap, ts: seq<Token>, i: nat, m: nat, j: nat, left: Filter, right: Filter)
    requires i <= m < j <= |ts| && KindAt(ts, m, KAnd) && IsAnd(a, ts[i..m], left) && IsUnary(a, ts[m + 1..j], right)
    ensures IsAnd(a, ts[i..j], And(left, right))
  {
    hide IsOr, IsUnary;
    var whole := ts[i..j];
    SplitSlices(ts, i, m, j);
    assert KindAt(whole, m - i, KAnd);
    assert JoinsAnd(a, whole, And(left, right), m - i);
  }

  /** The parts of a slice before and after its element at m. */
  lemma {:induction false} SplitSlices(ts: seq<Token>, i: nat, m: nat, j: nat)
    requires i <= m < j <= |ts|
    ensures var whole := ts[i..j];
            whole[..m - i] == ts[i..m] && whole[m - i] == ts[m] && whole[m - i + 1..] == ts[m + 1..j]
  {
    var whole := ts[i..j];
    SliceOfSlice(ts, i, j, 0, m - i);
    SliceOfSlice(ts, i, j, m - i + 1, j - i);
    assert whole[0..m - i] == whole[..m - i] && whole[m - i + 1..j - i] == whole[m - i + 1..];
  }

  lemma {:induction false} OrRestSound(a: AttributeMap, ts: seq<Token>, i: nat, left: Filter, j: nat)
    requires i < j <= |ts| && IsOr(a, ts[i..j], left) && OrRest(a, ts, left, j).Parsed?
    ensures var r := OrRest(a, ts, left, j); IsOr(a, ts[i..r.next], r.filter)
    decreases |ts| - j, 3
  {
    hide AndFrom, IsOr, IsAnd;
    if KindAt(ts, j, KOr) {
      var right := AndFrom(a, ts, j + 1);
      AndSound(a, ts, j + 1);
      OrJoined(a, ts, i, j, right.next, left, right.filter);
      OrRestSound(a, ts, i, Or(left, right.filter), right.next);
    }
  }

  lemma {:induction false} AndSound(a: AttributeMap, ts: seq<Token>, i: nat)
    requires i <= |ts| && AndFrom(a, ts, i).Parsed?
    ensures var r := AndFrom(a, ts, i); IsAnd(a, ts[i..r.next], r.filter)
    decreases |ts| - i, 2
  {
    var first := UnaryFrom(a, ts, i);
    UnarySound(a, ts, i);
    AndRestSound(a, ts, i, first.filter, first.next);
  }

  lemma {:induction false} AndRestSound(a: AttributeMap, ts: seq<Token>, i: nat, left: Filter, j: nat)
    requires i < j <= |ts| && IsAnd(a, ts[i..j], left) && AndRest(a, ts, left, j).Parsed?
    ensures var r := AndRest(a, ts, left, j); IsAnd(a, ts[i..r.next], r.filter)
    decreases |ts| - j, 1
  {
    hide UnaryFrom, IsAnd, IsUnary;
    if KindAt(ts, j, KAnd) {
      var right := UnaryFrom(a, ts, j + 1);
      UnarySound(a, ts, j + 1);
      AndJoined(a, ts, i, j, right.next, left, right.filter);
      AndRestSound(a, ts, i, And(left, right.filter), right.next);
    }
  }

  lemma {:induction false} UnarySound(a: AttributeMap, ts: seq<Token>, i: nat)
    requires i <= |ts| && UnaryFrom(a, ts, i).Parsed?
    ensures var r := UnaryFrom(a, ts, i); IsUnary(a, ts[i..r.next], r.filter)
    decreases |ts| - i, 0
  {
    hide OrFrom, ComparisonFrom, IsOr, IsUnary, IsComparison;
    var r := UnaryFrom(a, ts, i);
    if KindAt(ts, i, KNot) {
      UnarySound(a, ts, i + 1);
      NotDerives(a, ts, i, r.next, r.filter.inner);
    } else if KindAt(ts, i, KLParen) {
      OrSound(a, ts, i + 1);
      GroupedDerives(a, ts, i, r.next, r.filter);
    } else {
      ComparisonExact(a, ts, i, r.next, r.filter);
      ComparisonDerives(a, ts[i..r.next], r.filter);
    }
  }

  lemma {:induction false} ComparisonDerives(a: AttributeMap, ts: seq<Token>, f: Filter)
    requires IsComparison(a, ts, f)
    ensures IsUnary(a, ts, f)
  {
  }

  lemma {:induction false} NotDerives(a: AttributeMap, ts: seq<Token>, i: nat, j: nat, inner: Filter)
    requires i + 1 < j <= |ts| && KindAt(ts, i, KNot) && KindAt(ts, i + 1, KLParen) && IsUnary(a, ts[i + 1..j], inner)
    ensures IsUnary(a, ts[i..j], Not(inner))
  {
    hide IsComparison, IsOr;
    var whole := ts[i..j];
    SliceOfSlice(ts, i, j, 1, j - i);
    assert whole[1..j - i] == whole[1..];
    assert KindAt(whole, 0, KNot) && KindAt(whole, 1, KLParen);
  }

  lemma {:induction false} GroupedDerives(a: AttributeMap, ts: seq<Token>, i: nat, j: nat, f: Filter)
    requires i + 1 < j <= |ts| && KindAt(ts, i, KLParen) && KindAt(ts, j - 1, KRParen) && IsOr(a, ts[i + 1..j - 1], f)
    ensures IsUnary(a, ts[i..j], f)
  {
    hide IsComparison, IsOr;
    var whole := ts[i..j];
    SliceOfSlice(ts, i, j, 1, j - i - 1);
    assert KindAt(whole, 0, KLParen) && KindAt(whole, |whole| - 1, KRParen);
  }

  lemma {:induction false} GroupInner(a: AttributeMap, ts: seq<Token>, f: Filter)
    requires IsUnary(a, ts, f) && KindAt(ts, 0, KLParen)
    ensures |ts| >= 2 && KindAt(ts, |ts| - 1, KRParen) && IsOr(a, ts[1..|ts| - 1], f)
  {
  }

  lemma {:induction false} NotInner(a: AttributeMap, ts: seq<Token>, f: Filter)
    requires IsUnary(a, ts, f) && KindAt(ts, 0, KNot)
    ensures f.Not? && KindAt(ts, 1, KLParen) && IsUnary(a, ts[1..], f.inner)
  {
  }

  lemma {:induction false} GroupBounds(a: AttributeMap, ts: seq<Token>, i: nat, j: nat, f: Filter)
    requires i <= j <= |ts| && IsUnary(a, ts[i..j], f) && KindAt(ts[i..j], 0, KLParen)
    ensures i + 2 <= j && KindAt(ts, i, KLParen) && KindAt(ts, j - 1, KRParen) && IsOr(a, ts[i + 1..j - 1], f)
  {
    hide IsUnary, IsOr;
    var part := ts[i..j];
    GroupInner(a, part, f);
    SliceOfSlice(ts, i, j, 1, j - i - 1);
    assert part[0] == ts[i] && part[|part| - 1] == ts[j - 1];
  }

  lemma {:induction false} NotBounds(a: AttributeMap, ts: seq<Token>, i: nat, j: nat, f: Filter)
    requires i <= j <= |ts| && IsUnary(a, ts[i..j], f) && KindAt(ts[i..j], 0, KNot)
    ensures i + 1 < j && f.Not? && KindAt(ts, i, KNot) && KindAt(ts, i + 1, KLParen) && IsUnary(a, ts[i + 1..j], f.inner)
  {
    hide IsUnary;
    var part := ts[i..j];
    NotInner(a, part, f);
    SliceOfSlice(ts, i, j, 1, j - i);
    assert part[1..j - i] == part[1..];
    assert part[0] == ts[i] && part[1] == ts[i + 1];
  }

  lemma {:induction false} OrRestStops(a: AttributeMap, ts: seq<Token>, f: Filter, j: nat)
    requires j <= |ts| && !KindAt(ts, j, KOr)
    ensures OrRest(a, ts, f, j) == Parsed(f, j)
  {
  }

  lemma {:induction false} AndRestStops(a: AttributeMap, ts: seq<Token>, f: Filter, j: nat)
    requires j <= |ts| && !KindAt(ts, j, KAnd)
    ensures AndRest(a, ts, f, j) == Parsed(f, j)
  {
  }

  lemma {:induction false} UnaryNonEmpty(a: AttributeMap, ts: seq<Token>, f: Filter)
    requires IsUnary(a, ts, f)
    ensures ts != [] && (!KindAt(ts, 0, KNot) && !KindAt(ts, 0, KLParen) ==> IsComparison(a, ts, f))
  {
    hide IsOr;
  }

  lemma {:induction false} UnaryComplete(a: AttributeMap, ts: seq<Token>, i: nat, j: nat, f: Filter)
    requires i <= j <= |ts| && IsUnary(a, ts[i..j], f)
    ensures i < j && UnaryFrom(a, ts, i) == Parsed(f, j)
    decreases j - i, 0
  {
    hide OrFrom, OrRest, ComparisonFrom, IsOr, IsUnary, IsComparison;
    var part := ts[i..j];
    UnaryNonEmpty(a, part, f);
    assert part[0] == ts[i];
    if KindAt(part, 0, KNot) {
      NotBounds(a, ts, i, j, f);
      UnaryComplete(a, ts, i + 1, j, f.inner);
    } else if KindAt(part, 0, KLParen) {
      GroupBounds(a, ts, i, j, f);
      OrComplete(a, ts, i + 1, j - 1, f);
      OrRestStops(a, ts, f, j - 1);
    } else {
      ComparisonExact(a, ts, i, j, f);
    }
  }

  lemma {:induction false} AndJoin(a: AttributeMap, ts: seq<Token>, f: Filter) returns (k: nat)
    requires IsAnd(a, ts, f) && !IsUnary(a, ts, f)
    ensures f.And? && k < |ts| && KindAt(ts, k, KAnd)
    ensures IsAnd(a, ts[..k], f.left) && IsUnary(a, ts[k + 1..], f.right)
  {
    k :| JoinsAnd(a, ts, f, k);
  }

  lemma {:induction false} AndSplit(a: AttributeMap, ts: seq<Token>, i: nat, j: nat, f: Filter) returns (k: nat)
    requires i <= j <= |ts| && IsAnd(a, ts[i..j], f) && !IsUnary(a, ts[i..j], f)
    ensures i <= k < j && f.And? && KindAt(ts, k, KAnd)
    ensures IsAnd(a, ts[i..k], f.left) && IsUnary(a, ts[k + 1..j], f.right)
  {
    hide IsAnd, IsUnary;
    var m := AndJoin(a, ts[i..j], f);
    k := i + m;
    SplitSlices(ts, i, k, j);
  }

  lemma {:induction false} OrJoin(a: AttributeMap, ts: seq<Token>, f: Filter) returns (k: nat)
    requires IsOr(a, ts, f) && !IsAnd(a, ts, f)
    ensures f.Or? && k < |ts| && KindAt(ts, k, KOr)
    ensures IsOr(a, ts[..k], f.left) && IsAnd(a, ts[k + 1..], f.right)
  {
    k :| JoinsOr(a, ts, f, k);
  }

  lemma {:induction false} OrSplit(a: AttributeMap, ts: seq<Token>, i: nat, j: nat, f: Filter) returns (k: nat)
    requires i <= j <= |ts| && IsOr(a, ts[i..j], f) && !IsAnd(a, ts[i..j], f)
    ensures i <= k < j && f.Or? && KindAt(ts, k, KOr)
    ensures IsOr(a, ts[i..k], f.left) && IsAnd(a, ts[k + 1..j], f.right)
  {
    hide IsOr, IsAnd;
    var m := OrJoin(a, ts[i..j], f);
    k := i + m;
    SplitSlices(ts, i, k, j);
  }

  /** Parsing a derivable stretch leaves the loop where it would stand with that filter in hand. */
  lemma {:induction false} AndComplete(a: AttributeMap, ts: seq<Token>, i: nat, j: nat, f: Filter)
    requires i <= j <= |ts| && IsAnd(a, ts[i..j], f)
    ensures i < j && AndFrom(a, ts, i) == AndRest(a, ts, f, j)
    decreases j - i, 1
  {
    hide UnaryFrom, IsAnd, IsUnary;
    if IsUnary(a, ts[i..j], f) {
      UnaryComplete(a, ts, i, j, f);
    } else {
      var k := AndSplit(a, ts, i, j, f);
      AndComplete(a, ts, i, k, f.left);
      UnaryComplete(a, ts, k + 1, j, f.right);
      assert f == And(f.left, f.right);
    }
  }

  lemma {:induction false} OrComplete(a: AttributeMap, ts: seq<Token>, i: nat, j: nat, f: Filter)
    requires i <= j <= |ts| && IsOr(a, ts[i..j], f)
    requires !KindAt(ts, j, KAnd)
    ensures i < j && OrFrom(a, ts, i) == OrRest(a, ts, f, j)
    decreases j - i, 2
  {
    hide AndFrom, AndRest, IsOr, IsAnd;
    if IsAnd(a, ts[i..j], f) {
      AndComplete(a, ts, i, j, f);
      AndRestStops(a, ts, f, j);
    } else {
      var k := OrSplit(a, ts, i, j, f);
      OrComplete(a, ts, i, k, f.left);
      AndComplete(a, ts, k + 1, j, f.right);
      AndRestStops(a, ts, f.right, j);
      assert f == Or(f.left, f.right);
    }
  }

  /** Parsing accepts a token list with a tree exactly when the grammar derives that tree from it. */
  lemma {:induction false} ParserDecidesGrammar(a: AttributeMap, ts: seq<Token>, f: Filter)
    ensures ParseTokens(a, ts) == Ok(f) <==> IsOr(a, ts, f)
  {
    hide OrFrom, IsOr;
    assert ts[0..|ts|] == ts;
    if ParseTokens(a, ts) == Ok(f) {
      OrSound(a, ts, 0);
    }
    if IsOr(a, ts, f) {
      OrComplete(a, ts, 0, |ts|, f);
      OrRestStops(a, ts, f, |ts|);
    }
  }

  /** No token list has two derivations: the grammar's precedence and associativity fix the tree. */
  lemma {:induction false} GrammarUnambiguous(a: AttributeMap, ts: seq<Token>, f: Filter, g: Filter)
    requires IsOr(a, ts, f) && IsOr(a, ts, g)
    ensures f == g
  {
    ParserDecidesGrammar(a, ts, f);
    ParserDecidesGrammar(a, ts, g);
  }
}
