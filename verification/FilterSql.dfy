/**
 What a filter means to the database: `_compare` of app/scim/filters.py compiles a leaf to an SQL
 condition, which is evaluated in SQL's three-valued logic. Lower-casing is done by Python on the
 value and by the database on the column, so the two maps are separate parameters.
 */
module FilterSql {
  import opened Text
  import opened FilterLexer
  import opened FilterParser
  import opened FilterPrinter

  // --- LIKE -----------------------------------------------------------------------------

  /** SQL LIKE with a backslash as the escape character; a dangling escape matches nothing. */
  predicate Like(pattern: string, s: string)
    decreases |pattern| + |s|
  {
    if pattern == "" then s == ""
    else if pattern[0] == '%' then Like(pattern[1..], s) || (s != "" && Like(pattern, s[1..]))
    else if pattern[0] == '_' then s != "" && Like(pattern[1..], s[1..])
    else if pattern[0] == '\\' then |pattern| >= 2 && s != "" && s[0] == pattern[1] && Like(pattern[2..], s[1..])
    else s != "" && s[0] == pattern[0] && Like(pattern[1..], s[1..])
  }

  /** An unescaped underscore matches any one character. */
  lemma {:induction false} LikeAnyChar(pattern: string, s: string)
    ensures Like("_" + pattern, s) <==> s != "" && Like(pattern, s[1..])
  {
    assert ("_" + pattern)[1..] == pattern;
  }

  predicate IsWildcard(c: char) {
    c == '\\' || c == '%' || c == '_'
  }

  /** The three successive replaces of `_compare`. */
  function EscapeWildcards(v: string): string {
    Replace(Replace(Replace(v, "\\", "\\\\"), "%", "\\%"), "_", "\\_")
  }

  /** A case map that leaves the three special characters alone and produces no new ones. */
  ghost predicate KeepsWildcards(lower: char -> char) {
    forall c :: IsWildcard(c) || IsWildcard(lower(c)) ==> lower(c) == c
  }

  /** One-pass escaping: a backslash before each special character. */
  function EscapeOnePass(v: string): string {
    if v == "" then ""
    else (if IsWildcard(v[0]) then ['\\', v[0]] else [v[0]]) + EscapeOnePass(v[1..])
  }

  /** One of the three replaces: a backslash before every c. */
  function EscapeOne(s: string, c: char): string {
    Replace(s, [c], ['\\', c])
  }

  lemma {:induction false} EscapeOneHit(c: char, t: string)
    ensures EscapeOne([c] + t, c) == ['\\', c] + EscapeOne(t, c)
  {
    assert ([c] + t)[1..] == t;
  }

  lemma {:induction false} EscapeOneMiss(d: char, t: string, c: char)
    requires d != c
    ensures EscapeOne([d] + t, c) == [d] + EscapeOne(t, c)
  {
    assert ([d] + t)[1..] == t && ([d] + t)[0] == d;
  }

  lemma {:induction false} EscapeOneMissBoth(d: char, e: char, t: string, c: char)
    requires d != c && e != c
    ensures EscapeOne([d, e] + t, c) == [d, e] + EscapeOne(t, c)
  {
    hide EscapeOne;
    EscapeOneMiss(e, t, c);
    EscapeOneMiss(d, [e] + t, c);
    assert [d, e] + t == [d] + ([e] + t) && [d] + ([e] + EscapeOne(t, c)) == [d, e] + EscapeOne(t, c);
  }

  function EscapeThree(v: string): string {
    EscapeOne(EscapeOne(EscapeOne(v, '\\'), '%'), '_')
  }

  lemma {:induction false} ThreeOnBackslash(t: string)
    ensures EscapeThree(['\\'] + t) == ['\\', '\\'] + EscapeThree(t)
  {
    hide EscapeOne;
    EscapeOneHit('\\', t);
    EscapeOneMissBoth('\\', '\\', EscapeOne(t, '\\'), '%');
    EscapeOneMissBoth('\\', '\\', EscapeOne(EscapeOne(t, '\\'), '%'), '_');
  }

  lemma {:induction false} ThreeOnPercent(t: string)
    ensures EscapeThree(['%'] + t) == ['\\', '%'] + EscapeThree(t)
  {
    hide EscapeOne;
    EscapeOneMiss('%', t, '\\');
    EscapeOneHit('%', EscapeOne(t, '\\'));
    EscapeOneMissBoth('\\', '%', EscapeOne(EscapeOne(t, '\\'), '%'), '_');
  }

  lemma {:induction false} ThreeOnOther(c: char, t: string)
    requires c != '\\' && c != '%'
    ensures EscapeThree([c] + t) == (if c == '_' then ['\\', c] else [c]) + EscapeThree(t)
  {
    hide EscapeOne;
    var t2 := EscapeOne(EscapeOne(t, '\\'), '%');
    EscapeOneMiss(c, t, '\\');
    EscapeOneMiss(c, EscapeOne(t, '\\'), '%');
    if c == '_' {
      EscapeOneHit(c, t2);
    } else {
      EscapeOneMiss(c, t2, '_');
    }
  }

  lemma {:induction false} EscapeThreeIsOnePass(v: string)
    ensures EscapeThree(v) == EscapeOnePass(v)
  {
    hide EscapeThree;
    if v == "" {
      EscapeThreeEmpty();
    } else {
      var c, t := v[0], v[1..];
      assert v == [c] + t;
      EscapeThreeIsOnePass(t);
      if c == '\\' {
        ThreeOnBackslash(t);
      } else if c == '%' {
        ThreeOnPercent(t);
      } else {
        ThreeOnOther(c, t);
      }
    }
  }

  lemma {:induction false} EscapeThreeEmpty()
    ensures EscapeThree("") == ""
  {
  }

  lemma {:induction false} ThreeReplacesAreOnePass(v: string)
    ensures EscapeWildcards(v) == EscapeOnePass(v)
  {
    hide Replace, EscapeOnePass;
    EscapeThreeIsOnePass(v);
    assert "\\" == ['\\'] && "\\\\" == ['\\', '\\'] && "%" == ['%'] && "\\%" == ['\\', '%'];
    assert "_" == ['_'] && "\\_" == ['\\', '_'];
  }

  /** Lower-casing an escaped value escapes the lower-cased value. */
  lemma {:induction false} LowerEscaped(v: string, lower: char -> char)
    requires KeepsWildcards(lower)
    ensures MapChars(EscapeOnePass(v), lower) == EscapeOnePass(MapChars(v, lower))
  {
    if v != "" {
      var w := MapChars(v, lower);
      LowerEscaped(v[1..], lower);
      assert w[1..] == MapChars(v[1..], lower);
      var h := if IsWildcard(v[0]) then ['\\', v[0]] else [v[0]];
      var h' := if IsWildcard(w[0]) then ['\\', w[0]] else [w[0]];
      assert MapChars(h, lower) == h';
      assert MapChars(h + EscapeOnePass(v[1..]), lower) == MapChars(h, lower) + MapChars(EscapeOnePass(v[1..]), lower);
    }
  }

  /** An escaped literal in front of a pattern consumes exactly that text. */
  lemma {:induction false} LikeLiteral(v: string, pattern: string, s: string)
    ensures Like(EscapeOnePass(v) + pattern, s) <==> HasPrefix(s, v) && Like(pattern, s[|v|..])
  {
    var whole := EscapeOnePass(v) + pattern;
    if v == "" {
      assert whole == pattern && s[0..] == s;
    } else {
      var rest := EscapeOnePass(v[1..]) + pattern;
      assert v == [v[0]] + v[1..];
      if IsWildcard(v[0]) {
        assert whole[2..] == rest && whole[1] == v[0];
      } else {
        assert whole[1..] == rest && whole[0] == v[0];
      }
      if s != "" {
        LikeLiteral(v[1..], pattern, s[1..]);
        assert HasPrefix(s, v) <==> s[0] == v[0] && HasPrefix(s[1..], v[1..]);
        if |v| <= |s| { assert s[1..][|v| - 1..] == s[|v|..]; }
      }
    }
  }

  /** `%` skips any number of characters. */
  lemma {:induction false} LikeAnyRun(pattern: string, s: string)
    ensures Like("%" + pattern, s) <==> exists i :: 0 <= i <= |s| && Like(pattern, s[i..])
  {
    var whole := "%" + pattern;
    assert whole[1..] == pattern && s[0..] == s;
    if s != "" {
      LikeAnyRun(pattern, s[1..]);
      if Like(whole, s[1..]) {
        var i :| 0 <= i <= |s| - 1 && Like(pattern, s[1..][i..]);
        assert s[1..][i..] == s[i + 1..];
      }
      if i :| 1 <= i <= |s| && Like(pattern, s[i..]) {
        assert s[1..][i - 1..] == s[i..];
      }
    }
  }

  lemma {:induction false} PercentMatchesAll(s: string)
    ensures Like("%", s)
  {
    if s != "" { PercentMatchesAll(s[1..]); }
  }

  function CoPattern(v: string, lower: char -> char): string { "%" + MapChars(EscapeWildcards(v), lower) + "%" }
  function SwPattern(v: string, lower: char -> char): string { MapChars(EscapeWildcards(v), lower) + "%" }
  function EwPattern(v: string, lower: char -> char): string { "%" + MapChars(EscapeWildcards(v), lower) }

  lemma {:induction false} LikeWhole(v: string, s: string)
    ensures Like(EscapeOnePass(v), s) <==> s == v
  {
    LikeLiteral(v, "", s);
    assert EscapeOnePass(v) + "" == EscapeOnePass(v);
  }

  /** An escaped literal in front of `%` matches the texts that start with it. */
  lemma {:induction false} LikePrefix(w: string, s: string)
    ensures Like(EscapeOnePass(w) + "%", s) <==> HasPrefix(s, w)
  {
    hide Like, EscapeOnePass;
    LikeLiteral(w, "%", s);
    if HasPrefix(s, w) { PercentMatchesAll(s[|w|..]); }
  }

  lemma {:induction false} LikeSuffix(w: string, s: string)
    ensures Like("%" + EscapeOnePass(w), s) <==> HasSuffix(s, w)
  {
    hide Like, EscapeOnePass;
    LikeAnyRun(EscapeOnePass(w), s);
    forall i | 0 <= i <= |s| ensures Like(EscapeOnePass(w), s[i..]) <==> s[i..] == w {
      LikeWhole(w, s[i..]);
    }
    if HasSuffix(s, w) { assert s[|s| - |w|..] == w; }
  }

  lemma {:induction false} LikeContains(w: string, s: string)
    ensures Like("%" + EscapeOnePass(w) + "%", s) <==> Contains(s, w)
  {
    hide Like, EscapeOnePass, HasPrefix;
    var e := EscapeOnePass(w);
    assert "%" + e + "%" == "%" + (e + "%");
    LikeAnyRun(e + "%", s);
    forall i | 0 <= i <= |s| ensures Like(e + "%", s[i..]) <==> HasPrefix(s[i..], w) {
      LikePrefix(w, s[i..]);
    }
  }

  /** co, sw and ew select exactly the texts that contain, start with or end with the value. */
  lemma {:induction false} LikeExact(v: string, lower: char -> char, s: string)
    requires KeepsWildcards(lower)
    ensures Like(CoPattern(v, lower), s) <==> Contains(s, MapChars(v, lower))
    ensures Like(SwPattern(v, lower), s) <==> HasPrefix(s, MapChars(v, lower))
    ensures Like(EwPattern(v, lower), s) <==> HasSuffix(s, MapChars(v, lower))
  {
    hide Like, EscapeOnePass, EscapeWildcards, Contains, HasPrefix, HasSuffix, MapChars;
    var w := MapChars(v, lower);
    ThreeReplacesAreOnePass(v);
    LowerEscaped(v, lower);
    LikeContains(w, s);
    LikePrefix(w, s);
    LikeSuffix(w, s);
  }

  // --- SQL conditions ------------------------------------------------------------------------

  datatype Cell = Null | Varchar(s: string) | Flag(b: bool)

  type Row = map<string, Cell>

  function At(row: Row, column: string): Cell {
    if column in row then row[column] else Null
  }

  datatype Truth = True | False | Unknown

  function Known(b: bool): Truth { if b then True else False }

  function Negate(t: Truth): Truth {
    match t case True => False case False => True case Unknown => Unknown
  }

  function Both(t: Truth, u: Truth): Truth {
    if t == False || u == False then False
    else if t == Unknown || u == Unknown then Unknown
    else True
  }

  function Either(t: Truth, u: Truth): Truth {
    Negate(Both(Negate(t), Negate(u)))
  }

  datatype Sql =
    | LowerEquals(column: string, value: string, positive: bool)
    | LowerLike(column: string, pattern: string)
    | Ordered(column: string, operator: string, value: string)
    | NotEmpty(column: string)
    | IsNotNull(column: string)
    | IsFlag(column: string, flag: bool, positive: bool)
    | AllOf(left: Sql, right: Sql)
    | AnyOf(left: Sql, right: Sql)
    | Negation(inner: Sql)

  /** Text order by code point. */
  predicate Less(a: string, b: string) {
    if b == "" then false
    else if a == "" then true
    else a[0] < b[0] || (a[0] == b[0] && Less(a[1..], b[1..]))
  }

  predicate Compares(operator: string, a: string, b: string) {
    match operator
    case "gt" => Less(b, a)
    case "ge" => !Less(a, b)
    case "lt" => Less(a, b)
    case _ => !Less(b, a)
  }

  /** A condition on a NULL, or on a cell of another type, is unknown; IS and IS NOT are always definite. */
  function Eval(e: Sql, row: Row, dbLower: char -> char): Truth {
    match e
    case LowerEquals(c, v, positive) =>
      var cell := At(row, c);
      if !cell.Varchar? then Unknown else Known((MapChars(cell.s, dbLower) == v) == positive)
    case LowerLike(c, pattern) =>
      var cell := At(row, c);
      if !cell.Varchar? then Unknown else Known(Like(pattern, MapChars(cell.s, dbLower)))
    case Ordered(c, operator, v) =>
      var cell := At(row, c);
      if !cell.Varchar? then Unknown else Known(Compares(operator, cell.s, v))
    case NotEmpty(c) =>
      var cell := At(row, c);
      if !cell.Varchar? then Unknown else Known(cell.s != "")
    case IsNotNull(c) => Known(At(row, c) != Null)
    case IsFlag(c, flag, positive) => Known((At(row, c) == Flag(flag)) == positive)
    case AllOf(l, r) => Both(Eval(l, row, dbLower), Eval(r, row, dbLower))
    case AnyOf(l, r) => Either(Eval(l, row, dbLower), Eval(r, row, dbLower))
    case Negation(inner) => Negate(Eval(inner, row, dbLower))
  }

  predicate Truthy(v: string) {
    LowerAscii(Strip(v)) in {"true", "1"}
  }

  function CompileCompare(column: Column, operator: string, v: string, lower: char -> char): Sql {
    if column.isBoolean then IsFlag(column.name, Truthy(v), operator == "eq")
    else match operator
         case "eq" => LowerEquals(column.name, MapChars(v, lower), true)
         case "ne" => LowerEquals(column.name, MapChars(v, lower), false)
         case "co" => LowerLike(column.name, CoPattern(v, lower))
         case "sw" => LowerLike(column.name, SwPattern(v, lower))
         case "ew" => LowerLike(column.name, EwPattern(v, lower))
         case _ => Ordered(column.name, operator, v)
  }

  function Compile(a: AttributeMap, f: Filter, lower: char -> char): Sql
    requires Supported(a, f)
  {
    match f
    case Present(attribute) =>
      var column := Resolve(a, attribute).value;
      if column.isBoolean then IsNotNull(column.name)
      else AllOf(IsNotNull(column.name), NotEmpty(column.name))
    case Compare(attribute, operator, v) => CompileCompare(Resolve(a, attribute).value, operator, v, lower)
    case And(l, r) => AllOf(Compile(a, l, lower), Compile(a, r, lower))
    case Or(l, r) => AnyOf(Compile(a, l, lower), Compile(a, r, lower))
    case Not(inner) => Negation(Compile(a, inner, lower))
  }

  /** A compiled tree is evaluated connective by connective. */
  lemma {:induction false} EvalCompiled(a: AttributeMap, f: Filter, row: Row, lower: char -> char, dbLower: char -> char)
    requires Supported(a, f)
    ensures var t := Eval(Compile(a, f, lower), row, dbLower);
            match f
            case And(l, r) => t == Both(Eval(Compile(a, l, lower), row, dbLower), Eval(Compile(a, r, lower), row, dbLower))
            case Or(l, r) => t == Either(Eval(Compile(a, l, lower), row, dbLower), Eval(Compile(a, r, lower), row, dbLower))
            case Not(inner) => t == Negate(Eval(Compile(a, inner, lower), row, dbLower))
            case _ => true
  {
    hide CompileCompare, Like, Resolve, SupportedLeaf, Both, Either, Negate;
  }

  // --- how the code reads a filter, when nothing is NULL ----------------------------------------------

  /** Matching compares lower-cased text, each side with its own map; ordering compares the text as it is. */
  predicate TextReading(operator: string, stored: string, v: string, lower: char -> char, dbLower: char -> char) {
    var s, w := MapChars(stored, dbLower), MapChars(v, lower);
    match operator
    case "eq" => s == w
    case "ne" => s != w
    case "co" => Contains(s, w)
    case "sw" => HasPrefix(s, w)
    case "ew" => HasSuffix(s, w)
    case "gt" => Less(v, stored)
    case "ge" => Less(v, stored) || stored == v
    case "lt" => Less(stored, v)
    case _ => Less(stored, v) || stored == v
  }

  predicate Reading(a: AttributeMap, f: Filter, row: Row, lower: char -> char, dbLower: char -> char)
    requires Supported(a, f)
  {
    match f
    case Present(attribute) =>
      var cell := At(row, Resolve(a, attribute).value.name);
      cell != Null && cell != Varchar("")
    case Compare(attribute, operator, v) =>
      var cell := At(row, Resolve(a, attribute).value.name);
      (match cell
       case Null => false
       case Flag(b) => (b == Truthy(v)) == (operator == "eq")
       case Varchar(s) => TextReading(operator, s, v, lower, dbLower))
    case And(l, r) => Reading(a, l, row, lower, dbLower) && Reading(a, r, row, lower, dbLower)
    case Or(l, r) => Reading(a, l, row, lower, dbLower) || Reading(a, r, row, lower, dbLower)
    case Not(inner) => !Reading(a, inner, row, lower, dbLower)
  }

  /** Every cell holds NULL or a value of its column's type. */
  predicate WellTyped(a: AttributeMap, row: Row) {
    forall key :: key in a ==>
      var cell := At(row, a[key].name);
      cell == Null || cell.Flag? == a[key].isBoolean
  }

  /** The columns a filter compares (that is, mentions other than by `pr`) are not NULL. */
  predicate ComparesNonNull(a: AttributeMap, f: Filter, row: Row)
    requires Supported(a, f)
  {
    match f
    case Present(_) => true
    case Compare(attribute, _, _) => At(row, Resolve(a, attribute).value.name) != Null
    case And(l, r) => ComparesNonNull(a, l, row) && ComparesNonNull(a, r, row)
    case Or(l, r) => ComparesNonNull(a, l, row) && ComparesNonNull(a, r, row)
    case Not(inner) => ComparesNonNull(a, inner, row)
  }

  lemma {:induction false} LessTotal(x: string, y: string)
    ensures !Less(x, y) <==> Less(y, x) || x == y
  {
    if x != "" && y != "" && x[0] == y[0] {
      LessTotal(x[1..], y[1..]);
      assert x == [x[0]] + x[1..] && y == [y[0]] + y[1..];
    }
  }

  lemma {:induction false} CompareReading(column: Column, operator: string, v: string, stored: string, row: Row,
                       lower: char -> char, dbLower: char -> char)
    requires KeepsWildcards(lower) && !column.isBoolean && operator in COMPARISON && At(row, column.name) == Varchar(stored)
    ensures Eval(CompileCompare(column, operator, v, lower), row, dbLower) == Known(TextReading(operator, stored, v, lower, dbLower))
  {
    if operator in {"co", "sw", "ew"} {
      LikeExact(v, lower, MapChars(stored, dbLower));
    } else {
      LessTotal(stored, v);
      LessTotal(v, stored);
    }
  }

  lemma {:induction false} LeafReading(a: AttributeMap, f: Filter, row: Row, lower: char -> char, dbLower: char -> char)
    requires KeepsWildcards(lower) && SupportedLeaf(a, f) && WellTyped(a, row) && ComparesNonNull(a, f, row)
    ensures Eval(Compile(a, f, lower), row, dbLower) == Known(Reading(a, f, row, lower, dbLower))
  {
    var column := Resolve(a, f.attribute).value;
    var cell := At(row, column.name);
    assert cell == Null || cell.Flag? == column.isBoolean;
    if f.Compare? && cell.Varchar? {
      CompareReading(column, f.operator, f.value, cell.s, row, lower, dbLower);
    }
  }

  /** On a row whose compared columns are non-NULL the clause is never unknown and answers the reading. */
  lemma {:induction false} CompiledReading(a: AttributeMap, f: Filter, row: Row, lower: char -> char, dbLower: char -> char)
    requires KeepsWildcards(lower) && Supported(a, f) && WellTyped(a, row) && ComparesNonNull(a, f, row)
    ensures Eval(Compile(a, f, lower), row, dbLower) == Known(Reading(a, f, row, lower, dbLower))
  {
    hide Eval, Compile, WellTyped, BooleansPresent, KeepsWildcards, SupportedLeaf, Resolve;
    EvalCompiled(a, f, row, lower, dbLower);
    match f {
      case And(l, r) =>
        CompiledReading(a, l, row, lower, dbLower);
        CompiledReading(a, r, row, lower, dbLower);
      case Or(l, r) =>
        CompiledReading(a, l, row, lower, dbLower);
        CompiledReading(a, r, row, lower, dbLower);
      case Not(inner) => CompiledReading(a, inner, row, lower, dbLower);
      case _ => LeafReading(a, f, row, lower, dbLower);
    }
  }

  // --- what is selected, on any row ------------------------------------------------------------------

  /** Boolean columns are declared NOT NULL. */
  predicate BooleansPresent(a: AttributeMap, row: Row) {
    forall key :: key in a && a[key].isBoolean ==> At(row, a[key].name) != Null
  }

  /**
   Whether a filter is certain to have the truth value `wanted`: a comparison that reads a NULL is
   neither true nor false, and negation turns certainty of one into certainty of the other.
   */
  predicate Certain(a: AttributeMap, f: Filter, row: Row, wanted: bool, lower: char -> char, dbLower: char -> char)
    requires Supported(a, f)
  {
    match f
    case And(l, r) =>
      if wanted then Certain(a, l, row, true, lower, dbLower) && Certain(a, r, row, true, lower, dbLower)
      else Certain(a, l, row, false, lower, dbLower) || Certain(a, r, row, false, lower, dbLower)
    case Or(l, r) =>
      if wanted then Certain(a, l, row, true, lower, dbLower) || Certain(a, r, row, true, lower, dbLower)
      else Certain(a, l, row, false, lower, dbLower) && Certain(a, r, row, false, lower, dbLower)
    case Not(inner) => Certain(a, inner, row, !wanted, lower, dbLower)
    case _ => ComparesNonNull(a, f, row) && Reading(a, f, row, lower, dbLower) == wanted
  }

  /** Every comparison under an odd number of `not`s reads a value; `negated` counts the ones outside. */
  predicate NegationsReadValues(a: AttributeMap, f: Filter, row: Row, negated: bool)
    requires Supported(a, f)
  {
    match f
    case Present(_) => true
    case Compare(attribute, _, _) => negated ==> At(row, Resolve(a, attribute).value.name) != Null
    case And(l, r) => NegationsReadValues(a, l, row, negated) && NegationsReadValues(a, r, row, negated)
    case Or(l, r) => NegationsReadValues(a, l, row, negated) && NegationsReadValues(a, r, row, negated)
    case Not(inner) => NegationsReadValues(a, inner, row, !negated)
  }

  lemma {:induction false} LeafOnNull(a: AttributeMap, f: Filter, row: Row, lower: char -> char, dbLower: char -> char)
    requires SupportedLeaf(a, f) && BooleansPresent(a, row) && !ComparesNonNull(a, f, row)
    ensures Eval(Compile(a, f, lower), row, dbLower) == Unknown && !Reading(a, f, row, lower, dbLower)
  {
    assert LowerAscii(f.attribute) in a;
  }

  /** On every row the clause is true where the filter is certainly true and false where it is certainly false. */
  lemma {:induction false} EvalIsCertain(a: AttributeMap, f: Filter, row: Row, lower: char -> char, dbLower: char -> char)
    requires KeepsWildcards(lower) && Supported(a, f) && WellTyped(a, row) && BooleansPresent(a, row)
    ensures Eval(Compile(a, f, lower), row, dbLower) == True <==> Certain(a, f, row, true, lower, dbLower)
    ensures Eval(Compile(a, f, lower), row, dbLower) == False <==> Certain(a, f, row, false, lower, dbLower)
  {
    hide Eval, Compile, WellTyped, BooleansPresent, KeepsWildcards, SupportedLeaf, Resolve;
    EvalCompiled(a, f, row, lower, dbLower);
    match f {
      case And(l, r) =>
        EvalIsCertain(a, l, row, lower, dbLower);
        EvalIsCertain(a, r, row, lower, dbLower);
      case Or(l, r) =>
        EvalIsCertain(a, l, row, lower, dbLower);
        EvalIsCertain(a, r, row, lower, dbLower);
      case Not(inner) => EvalIsCertain(a, inner, row, lower, dbLower);
      case _ =>
        if ComparesNonNull(a, f, row) {
          LeafReading(a, f, row, lower, dbLower);
        } else {
          LeafOnNull(a, f, row, lower, dbLower);
        }
    }
  }

  /** A certain answer is the filter's reading. */
  lemma {:induction false} CertainIsReading(
      a: AttributeMap, f: Filter, row: Row, wanted: bool, lower: char -> char, dbLower: char -> char)
    requires Supported(a, f) && Certain(a, f, row, wanted, lower, dbLower)
    ensures Reading(a, f, row, lower, dbLower) == wanted
  {
    match f {
      case And(l, r) =>
        if Certain(a, l, row, wanted, lower, dbLower) { CertainIsReading(a, l, row, wanted, lower, dbLower); }
        if Certain(a, r, row, wanted, lower, dbLower) { CertainIsReading(a, r, row, wanted, lower, dbLower); }
      case Or(l, r) =>
        if Certain(a, l, row, wanted, lower, dbLower) { CertainIsReading(a, l, row, wanted, lower, dbLower); }
        if Certain(a, r, row, wanted, lower, dbLower) { CertainIsReading(a, r, row, wanted, lower, dbLower); }
      case Not(inner) => CertainIsReading(a, inner, row, !wanted, lower, dbLower);
      case _ =>
    }
  }

  /** NULLs outside negations do not matter: what is read there is certain. */
  lemma {:induction false} ReadingIsCertain(
      a: AttributeMap, f: Filter, row: Row, wanted: bool, lower: char -> char, dbLower: char -> char)
    requires Supported(a, f) && NegationsReadValues(a, f, row, !wanted) && Reading(a, f, row, lower, dbLower) == wanted
    ensures Certain(a, f, row, wanted, lower, dbLower)
  {
    hide SupportedLeaf, Resolve, TextReading;
    match f {
      case And(l, r) =>
        if Reading(a, l, row, lower, dbLower) == wanted { ReadingIsCertain(a, l, row, wanted, lower, dbLower); }
        if Reading(a, r, row, lower, dbLower) == wanted { ReadingIsCertain(a, r, row, wanted, lower, dbLower); }
      case Or(l, r) =>
        if Reading(a, l, row, lower, dbLower) == wanted { ReadingIsCertain(a, l, row, wanted, lower, dbLower); }
        if Reading(a, r, row, lower, dbLower) == wanted { ReadingIsCertain(a, r, row, wanted, lower, dbLower); }
      case Not(inner) => ReadingIsCertain(a, inner, row, !wanted, lower, dbLower);
      case _ =>
    }
  }

  /** Only rows the filter is read to hold on are selected, and all of them unless a negated comparison reads a NULL. */
  lemma {:induction false} SelectedIsRead(a: AttributeMap, f: Filter, row: Row, lower: char -> char, dbLower: char -> char)
    requires KeepsWildcards(lower) && Supported(a, f) && WellTyped(a, row) && BooleansPresent(a, row)
    ensures var selected := Eval(Compile(a, f, lower), row, dbLower) == True;
            && (selected ==> Reading(a, f, row, lower, dbLower))
            && (NegationsReadValues(a, f, row, false) ==> (selected <==> Reading(a, f, row, lower, dbLower)))
  {
    hide Eval, Compile, Certain, Reading, NegationsReadValues;
    EvalIsCertain(a, f, row, lower, dbLower);
    if Certain(a, f, row, true, lower, dbLower) {
      CertainIsReading(a, f, row, true, lower, dbLower);
    } else if Reading(a, f, row, lower, dbLower) && NegationsReadValues(a, f, row, false) {
      ReadingIsCertain(a, f, row, true, lower, dbLower);
    }
  }

  // --- the meaning section 3.4.2.2 of RFC 7644 gives a filter ------------------------------------------

  /** The columns of the attributes that section 3.1 of RFC 7643 makes case-exact. */
  const CASE_EXACT: set<string> := {"id", "external_id"}

  function Folded(s: string, exact: bool, fold: char -> char): string {
    if exact then s else MapChars(s, fold)
  }

  /** One notion of case per attribute, for both sides and for every operator. */
  predicate TextMeaning(operator: string, stored: string, v: string, exact: bool, fold: char -> char) {
    var s, w := Folded(stored, exact, fold), Folded(v, exact, fold);
    match operator
    case "eq" => s == w
    case "ne" => s != w
    case "co" => Contains(s, w)
    case "sw" => HasPrefix(s, w)
    case "ew" => HasSuffix(s, w)
    case "gt" => Less(w, s)
    case "ge" => Less(w, s) || s == w
    case "lt" => Less(s, w)
    case _ => Less(s, w) || s == w
  }

  /** A comparison with a missing value is false, so its negation is true. */
  predicate Meaning(a: AttributeMap, f: Filter, row: Row, fold: char -> char)
    requires Supported(a, f)
  {
    match f
    case Present(attribute) =>
      var cell := At(row, Resolve(a, attribute).value.name);
      cell != Null && cell != Varchar("")
    case Compare(attribute, operator, v) =>
      var name := Resolve(a, attribute).value.name;
      (match At(row, name)
       case Null => false
       case Flag(b) => (b == Truthy(v)) == (operator == "eq")
       case Varchar(s) => TextMeaning(operator, s, v, name in CASE_EXACT, fold))
    case And(l, r) => Meaning(a, l, row, fold) && Meaning(a, r, row, fold)
    case Or(l, r) => Meaning(a, l, row, fold) || Meaning(a, r, row, fold)
    case Not(inner) => !Meaning(a, inner, row, fold)
  }

  predicate TextAgrees(operator: string, stored: string, v: string, exact: bool, lower: char -> char, dbLower: char -> char) {
    TextReading(operator, stored, v, lower, dbLower) == TextMeaning(operator, stored, v, exact, lower)
  }

  /** Every comparison of the filter reads the text of this row as RFC 7644 has it, with Python's lower() as the fold. */
  predicate Agrees(a: AttributeMap, f: Filter, row: Row, lower: char -> char, dbLower: char -> char)
    requires Supported(a, f)
  {
    match f
    case Present(_) => true
    case Compare(attribute, operator, v) =>
      var name := Resolve(a, attribute).value.name;
      At(row, name).Varchar? ==> TextAgrees(operator, At(row, name).s, v, name in CASE_EXACT, lower, dbLower)
    case And(l, r) => Agrees(a, l, row, lower, dbLower) && Agrees(a, r, row, lower, dbLower)
    case Or(l, r) => Agrees(a, l, row, lower, dbLower) && Agrees(a, r, row, lower, dbLower)
    case Not(inner) => Agrees(a, inner, row, lower, dbLower)
  }

  lemma {:induction false} ReadingIsMeaning(a: AttributeMap, f: Filter, row: Row, lower: char -> char, dbLower: char -> char)
    requires Supported(a, f) && Agrees(a, f, row, lower, dbLower)
    ensures Reading(a, f, row, lower, dbLower) == Meaning(a, f, row, lower)
  {
    hide SupportedLeaf, Resolve, TextReading, TextMeaning;
    match f {
      case And(l, r) =>
        ReadingIsMeaning(a, l, row, lower, dbLower);
        ReadingIsMeaning(a, r, row, lower, dbLower);
      case Or(l, r) =>
        ReadingIsMeaning(a, l, row, lower, dbLower);
        ReadingIsMeaning(a, r, row, lower, dbLower);
      case Not(inner) => ReadingIsMeaning(a, inner, row, lower, dbLower);
      case _ =>
    }
  }

  /** Where compared columns are not NULL and comparisons agree, the clause is never unknown and means the filter. */
  lemma {:induction false} CompiledMeaning(a: AttributeMap, f: Filter, row: Row, lower: char -> char, dbLower: char -> char)
    requires KeepsWildcards(lower) && Supported(a, f) && WellTyped(a, row) && ComparesNonNull(a, f, row)
    requires Agrees(a, f, row, lower, dbLower)
    ensures Eval(Compile(a, f, lower), row, dbLower) == Known(Meaning(a, f, row, lower))
  {
    hide *;
    CompiledReading(a, f, row, lower, dbLower);
    ReadingIsMeaning(a, f, row, lower, dbLower);
  }

  /** Where comparisons agree, only rows the filter means are selected, and all unless a negated comparison reads a NULL. */
  lemma {:induction false} SelectedIsMeant(a: AttributeMap, f: Filter, row: Row, lower: char -> char, dbLower: char -> char)
    requires KeepsWildcards(lower) && Supported(a, f) && WellTyped(a, row) && BooleansPresent(a, row)
    requires Agrees(a, f, row, lower, dbLower)
    ensures var selected := Eval(Compile(a, f, lower), row, dbLower) == True;
            && (selected ==> Meaning(a, f, row, lower))
            && (NegationsReadValues(a, f, row, false) ==> (selected <==> Meaning(a, f, row, lower)))
  {
    hide *;
    SelectedIsRead(a, f, row, lower, dbLower);
    ReadingIsMeaning(a, f, row, lower, dbLower);
  }

  /** The rows on which a filter can be trusted: its comparisons agree, and no negated one reads a NULL. */
  predicate Fits(a: AttributeMap, f: Filter, row: Row, lower: char -> char, dbLower: char -> char)
    requires Supported(a, f)
  {
    NegationsReadValues(a, f, row, false) && Agrees(a, f, row, lower, dbLower)
  }

  /** One comparison, negated or not. */
  predicate IsLiteral(f: Filter) {
    f.Compare? || (f.Not? && f.inner.Compare?)
  }

  lemma {:induction false} LeafExactly(a: AttributeMap, leaf: Filter, row: Row, lower: char -> char, dbLower: char -> char)
    requires leaf.Compare? && SupportedLeaf(a, leaf)
    ensures var cell := At(row, Resolve(a, leaf.attribute).value.name);
            && (ComparesNonNull(a, leaf, row) <==> cell != Null)
            && (cell == Null ==> !Meaning(a, leaf, row, lower))
            && (cell != Null ==> (Agrees(a, leaf, row, lower, dbLower) <==>
                                    (Reading(a, leaf, row, lower, dbLower) <==> Meaning(a, leaf, row, lower))))
            && (cell == Null ==> Agrees(a, leaf, row, lower, dbLower))
  {
    hide TextReading, TextMeaning, Resolve;
  }

  /** On one row a comparison or its negation is certain exactly when it is meant, if and only if it fits. */
  lemma {:induction false} LiteralExactly(a: AttributeMap, f: Filter, row: Row, lower: char -> char, dbLower: char -> char)
    requires Supported(a, f) && IsLiteral(f)
    ensures (Certain(a, f, row, true, lower, dbLower) <==> Meaning(a, f, row, lower)) <==> Fits(a, f, row, lower, dbLower)
  {
    hide SupportedLeaf, Reading, Meaning, Agrees, ComparesNonNull;
    var leaf := if f.Not? then f.inner else f;
    LeafExactly(a, leaf, row, lower, dbLower);
    LiteralParts(a, leaf, row, lower, dbLower);
  }

  lemma {:induction false} LiteralParts(a: AttributeMap, leaf: Filter, row: Row, lower: char -> char, dbLower: char -> char)
    requires leaf.Compare? && SupportedLeaf(a, leaf)
    ensures forall wanted :: Certain(a, leaf, row, wanted, lower, dbLower)
                        <==> ComparesNonNull(a, leaf, row) && Reading(a, leaf, row, lower, dbLower) == wanted
    ensures NegationsReadValues(a, leaf, row, false) && (NegationsReadValues(a, leaf, row, true) <==> ComparesNonNull(a, leaf, row))
    ensures Meaning(a, Not(leaf), row, lower) <==> !Meaning(a, leaf, row, lower)
    ensures Agrees(a, Not(leaf), row, lower, dbLower) <==> Agrees(a, leaf, row, lower, dbLower)
  {
    hide SupportedLeaf, TextReading, TextMeaning, TextAgrees, Resolve;
  }

  /** A comparison or its negation selects what it means exactly on the rows it fits. */
  lemma {:induction false} LiteralSelectedExactly(a: AttributeMap, f: Filter, row: Row, lower: char -> char, dbLower: char -> char)
    requires KeepsWildcards(lower) && Supported(a, f) && IsLiteral(f) && WellTyped(a, row) && BooleansPresent(a, row)
    ensures (Eval(Compile(a, f, lower), row, dbLower) == True <==> Meaning(a, f, row, lower))
            <==> Fits(a, f, row, lower, dbLower)
  {
    hide *;
    EvalIsCertain(a, f, row, lower, dbLower);
    LiteralExactly(a, f, row, lower, dbLower);
  }

  // --- when a comparison agrees ------------------------------------------------------------------------------

  const MATCHING: set<string> := {"eq", "ne", "co", "sw", "ew"}
  const ORDERING: set<string> := {"gt", "ge", "lt", "le"}

  /** Every operator either matches or orders. */
  lemma {:induction false} OperatorsSplit()
    ensures COMPARISON == MATCHING + ORDERING && MATCHING !! ORDERING
  {
  }

  /** Python and the database lower-case this text alike. */
  predicate FoldsAlike(s: string, lower: char -> char, dbLower: char -> char) {
    MapChars(s, dbLower) == MapChars(s, lower)
  }

  /** No character of the text has another case. */
  ghost predicate Caseless(s: string, lower: char -> char) {
    forall i, d :: 0 <= i < |s| && lower(d) == lower(s[i]) ==> d == s[i]
  }

  /** Lower-casing keeps the order of every character of the text against every other character. */
  ghost predicate Steady(s: string, lower: char -> char) {
    forall i, d :: 0 <= i < |s| ==>
      (d < s[i] <==> lower(d) < lower(s[i])) && (s[i] < d <==> lower(s[i]) < lower(d))
  }

  lemma {:induction false} CaselessPrefix(s: string, v: string, lower: char -> char)
    requires Caseless(s, lower)
    ensures HasPrefix(MapChars(s, lower), MapChars(v, lower)) <==> HasPrefix(s, v)
    ensures MapChars(s, lower) == MapChars(v, lower) <==> s == v
  {
    var x, y := MapChars(s, lower), MapChars(v, lower);
    if HasPrefix(x, y) {
      forall i | 0 <= i < |v| ensures v[i] == s[i] {
        assert x[i] == y[i];
      }
    }
  }

  lemma {:induction false} CaselessMatching(s: string, v: string, lower: char -> char)
    requires Caseless(s, lower)
    ensures HasSuffix(MapChars(s, lower), MapChars(v, lower)) <==> HasSuffix(s, v)
    ensures Contains(MapChars(s, lower), MapChars(v, lower)) <==> Contains(s, v)
  {
    var x, y := MapChars(s, lower), MapChars(v, lower);
    forall i | 0 <= i <= |s|
      ensures HasPrefix(x[i..], y) <==> HasPrefix(s[i..], v)
      ensures x[i..] == y <==> s[i..] == v
    {
      assert x[i..] == MapChars(s[i..], lower);
      CaselessPrefix(s[i..], v, lower);
    }
  }

  lemma {:induction false} CaselessAgrees(operator: string, s: string, v: string, exact: bool, lower: char -> char, dbLower: char -> char)
    requires operator in MATCHING && FoldsAlike(s, lower, dbLower) && (exact ==> Caseless(s, lower))
    ensures TextAgrees(operator, s, v, exact, lower, dbLower)
  {
    hide Caseless, Contains, HasPrefix, HasSuffix;
    if exact {
      CaselessPrefix(s, v, lower);
      CaselessMatching(s, v, lower);
    }
  }

  /**
   A stored text is matched as RFC 7644 has it, whatever it is compared with, exactly when Python and the
   database lower-case it alike and, under a case-exact attribute, it has no case.
   */
  lemma {:induction false} MatchingExactly(s: string, exact: bool, lower: char -> char, dbLower: char -> char)
    ensures (forall operator, v :: operator in MATCHING ==> TextAgrees(operator, s, v, exact, lower, dbLower))
       <==> FoldsAlike(s, lower, dbLower) && (exact ==> Caseless(s, lower))
  {
    if FoldsAlike(s, lower, dbLower) && (exact ==> Caseless(s, lower)) {
      forall operator, v | operator in MATCHING ensures TextAgrees(operator, s, v, exact, lower, dbLower) {
        CaselessAgrees(operator, s, v, exact, lower, dbLower);
      }
    } else if !FoldsAlike(s, lower, dbLower) {
      assert !TextAgrees("eq", s, s, exact, lower, dbLower);
    } else {
      var i, d :| 0 <= i < |s| && lower(d) == lower(s[i]) && d != s[i];
      var v := s[i := d];
      assert v[i] != s[i] && MapChars(v, lower) == MapChars(s, lower);
      assert !TextAgrees("eq", s, v, exact, lower, dbLower);
    }
  }

  lemma {:induction false} LessUpdated(s: string, i: nat, d: char)
    requires i < |s|
    ensures Less(s[i := d], s) <==> d < s[i]
    ensures Less(s, s[i := d]) <==> s[i] < d
  {
    var v := s[i := d];
    if i == 0 {
      assert v[1..] == s[1..];
      LessTotal(s[1..], s[1..]);
    } else {
      assert v[1..] == s[1..][i - 1 := d];
      LessUpdated(s[1..], i - 1, d);
    }
  }

  lemma {:induction false} SteadyHead(s: string, d: char, lower: char -> char)
    requires Steady(s, lower) && s != ""
    ensures d < s[0] <==> lower(d) < lower(s[0])
    ensures s[0] < d <==> lower(s[0]) < lower(d)
    ensures Steady(s[1..], lower)
  {
  }

  lemma {:induction false} LessStep(x: string, y: string)
    requires x != "" && y != ""
    ensures Less(x, y) <==> x[0] < y[0] || (x[0] == y[0] && Less(x[1..], y[1..]))
    ensures x == y <==> x[0] == y[0] && x[1..] == y[1..]
  {
    assert x == [x[0]] + x[1..] && y == [y[0]] + y[1..];
  }

  lemma {:induction false} SteadyOrder(s: string, v: string, lower: char -> char)
    requires Steady(s, lower)
    ensures Less(v, s) <==> Less(MapChars(v, lower), MapChars(s, lower))
    ensures Less(s, v) <==> Less(MapChars(s, lower), MapChars(v, lower))
    ensures s == v <==> MapChars(s, lower) == MapChars(v, lower)
  {
    var x, y := MapChars(s, lower), MapChars(v, lower);
    if s != "" && v != "" {
      hide Less, Steady;
      assert x[1..] == MapChars(s[1..], lower) && y[1..] == MapChars(v[1..], lower);
      SteadyHead(s, v[0], lower);
      SteadyOrder(s[1..], v[1..], lower);
      LessStep(s, v);
      LessStep(v, s);
      LessStep(x, y);
      LessStep(y, x);
    }
  }

  lemma {:induction false} SteadyAgrees(operator: string, s: string, v: string, exact: bool, lower: char -> char, dbLower: char -> char)
    requires operator in ORDERING && (exact || Steady(s, lower))
    ensures TextAgrees(operator, s, v, exact, lower, dbLower)
  {
    hide Less, Steady;
    if !exact { SteadyOrder(s, v, lower); }
  }

  /** A character lower-casing moves past another gives a value on which gt or lt disagrees. */
  lemma {:induction false} UnsteadyDisagrees(s: string, i: nat, d: char, lower: char -> char, dbLower: char -> char)
    requires i < |s| && !((d < s[i] <==> lower(d) < lower(s[i])) && (s[i] < d <==> lower(s[i]) < lower(d)))
    ensures var v := s[i := d];
            !TextAgrees("gt", s, v, false, lower, dbLower) || !TextAgrees("lt", s, v, false, lower, dbLower)
  {
    hide Less;
    var v := s[i := d];
    assert MapChars(v, lower) == MapChars(s, lower)[i := lower(d)];
    LessUpdated(s, i, d);
    LessUpdated(MapChars(s, lower), i, lower(d));
  }

  /**
   A stored text is ordered as RFC 7644 has it against every value exactly when its attribute is
   case-exact or lower-casing keeps the order of its characters.
   */
  lemma {:induction false} OrderingExactly(s: string, exact: bool, lower: char -> char, dbLower: char -> char)
    ensures (forall operator, v :: operator in ORDERING ==> TextAgrees(operator, s, v, exact, lower, dbLower))
       <==> exact || Steady(s, lower)
  {
    hide TextAgrees;
    if exact || Steady(s, lower) {
      forall operator, v | operator in ORDERING ensures TextAgrees(operator, s, v, exact, lower, dbLower) {
        SteadyAgrees(operator, s, v, exact, lower, dbLower);
      }
    } else {
      var i, d :| 0 <= i < |s| && !((d < s[i] <==> lower(d) < lower(s[i])) && (s[i] < d <==> lower(s[i]) < lower(d)));
      UnsteadyDisagrees(s, i, d, lower, dbLower);
      assert "gt" in ORDERING && "lt" in ORDERING;
    }
  }

  /** When eq agrees on one stored text and one value. */
  lemma {:induction false} EqAgreesExactly(s: string, v: string, lower: char -> char, dbLower: char -> char)
    ensures TextAgrees("eq", s, v, false, lower, dbLower) <==>
              FoldsAlike(s, lower, dbLower) || (MapChars(v, lower) != MapChars(s, lower) && MapChars(v, lower) != MapChars(s, dbLower))
    ensures TextAgrees("eq", s, v, true, lower, dbLower) <==>
              if s == v then FoldsAlike(s, lower, dbLower) else MapChars(v, lower) != MapChars(s, dbLower)
  {
  }

  /** When ge reads as gt or eq. */
  lemma {:induction false} GeIsGtOrEqExactly(s: string, v: string, lower: char -> char, dbLower: char -> char)
    ensures (TextReading("ge", s, v, lower, dbLower) <==>
               TextReading("gt", s, v, lower, dbLower) || TextReading("eq", s, v, lower, dbLower))
       <==> && (MapChars(s, dbLower) == MapChars(v, lower) ==> !Less(s, v))
            && (s == v ==> FoldsAlike(s, lower, dbLower))
  {
    LessTotal(s, v);
    LessTotal(v, s);
  }

  // --- inputs on which it does not ---------------------------------------------------------------------------

  function OneUser(column: string, s: string): Row {
    map[column := Varchar(s)]
  }

  /** The user "B" is equal to "b" and at the same time less than it. */
  lemma {:induction false} OrderMindsCase()
    ensures var a: AttributeMap, row := map["username" := Column("user_name", false)], OneUser("user_name", "B");
            var eq, ge, lt := Compare("username", "eq", "b"), Compare("username", "ge", "b"), Compare("username", "lt", "b");
            && Supported(a, eq) && Supported(a, ge) && Supported(a, lt)
            && Eval(Compile(a, eq, LowerAsciiChar), row, LowerAsciiChar) == True && Meaning(a, eq, row, LowerAsciiChar)
            && Eval(Compile(a, ge, LowerAsciiChar), row, LowerAsciiChar) == False && Meaning(a, ge, row, LowerAsciiChar)
            && Eval(Compile(a, lt, LowerAsciiChar), row, LowerAsciiChar) == True && !Meaning(a, lt, row, LowerAsciiChar)
  {
    assert LowerAscii("username") == "username";
    assert MapChars("B", LowerAsciiChar) == "b" && MapChars("b", LowerAsciiChar) == "b";
    LessTotal("b", "b");
  }

  /** The id or externalId "A" is found by eq "a", although both attributes are case-exact. */
  lemma {:induction false} ExactIgnoresCase(column: string)
    requires column in {"id", "external_id"}
    ensures var a: AttributeMap, row := map["externalid" := Column(column, false)], OneUser(column, "A");
            var eq := Compare("externalid", "eq", "a");
            && Supported(a, eq)
            && Eval(Compile(a, eq, LowerAsciiChar), row, LowerAsciiChar) == True && !Meaning(a, eq, row, LowerAsciiChar)
  {
    assert LowerAscii("externalid") == "externalid";
    assert MapChars("A", LowerAsciiChar) == "a" && MapChars("a", LowerAsciiChar) == "a";
  }

  /** Lower-casing that, unlike SQLite's, knows a capital outside ASCII. */
  function LowerAccented(c: char): char {
    if c == '\U{00C9}' then '\U{00E9}' else LowerAsciiChar(c)
  }

  /** With SQLite's lower(), which is ASCII only, a user with an accented capital is not found by their own name. */
  lemma {:induction false} AccentedNotFound()
    ensures var a: AttributeMap, row := map["username" := Column("user_name", false)], OneUser("user_name", "\U{00C9}");
            var eq := Compare("username", "eq", "\U{00C9}");
            && KeepsWildcards(LowerAccented) && Supported(a, eq)
            && Eval(Compile(a, eq, LowerAccented), row, LowerAsciiChar) == False && Meaning(a, eq, row, LowerAccented)
  {
    assert LowerAscii("username") == "username";
    assert MapChars("\U{00C9}", LowerAccented)[0] != MapChars("\U{00C9}", LowerAsciiChar)[0];
  }

  // --- NULL columns ----------------------------------------------------------------------------------

  /** `filled` is `row` with some NULL cells given values. */
  predicate Fills(row: Row, filled: Row) {
    forall c :: c in row && row[c] != Null ==> c in filled && filled[c] == row[c]
  }

  /** Neither `pr` nor a boolean comparison reads a NULL cell: those two answer NULL definitely. */
  predicate DefiniteOnNullUnused(a: AttributeMap, f: Filter, row: Row)
    requires Supported(a, f)
  {
    match f
    case Present(attribute) => At(row, Resolve(a, attribute).value.name) != Null
    case Compare(attribute, _, _) =>
      Resolve(a, attribute).value.isBoolean ==> At(row, Resolve(a, attribute).value.name) != Null
    case And(l, r) => DefiniteOnNullUnused(a, l, row) && DefiniteOnNullUnused(a, r, row)
    case Or(l, r) => DefiniteOnNullUnused(a, l, row) && DefiniteOnNullUnused(a, r, row)
    case Not(inner) => DefiniteOnNullUnused(a, inner, row)
  }

  lemma {:induction false} LeafSurvivesFilling(
      a: AttributeMap, f: Filter, row: Row, filled: Row, lower: char -> char, dbLower: char -> char)
    requires SupportedLeaf(a, f) && Fills(row, filled) && DefiniteOnNullUnused(a, f, row)
    ensures var t := Eval(Compile(a, f, lower), row, dbLower);
            t != Unknown ==> Eval(Compile(a, f, lower), filled, dbLower) == t
  {
    var column := Resolve(a, f.attribute).value;
    assert At(row, column.name) != Null ==> At(filled, column.name) == At(row, column.name);
  }

  /** A definite answer on a row with NULLs is the answer whatever the NULLs turn out to be. */
  lemma {:induction false} DefiniteAnswersSurviveFilling(
      a: AttributeMap, f: Filter, row: Row, filled: Row, lower: char -> char, dbLower: char -> char)
    requires Supported(a, f) && Fills(row, filled) && DefiniteOnNullUnused(a, f, row)
    ensures var t := Eval(Compile(a, f, lower), row, dbLower);
            t != Unknown ==> Eval(Compile(a, f, lower), filled, dbLower) == t
  {
    hide Eval, Compile, Fills, SupportedLeaf, Resolve;
    EvalCompiled(a, f, row, lower, dbLower);
    EvalCompiled(a, f, filled, lower, dbLower);
    match f {
      case And(l, r) =>
        DefiniteAnswersSurviveFilling(a, l, row, filled, lower, dbLower);
        DefiniteAnswersSurviveFilling(a, r, row, filled, lower, dbLower);
      case Or(l, r) =>
        DefiniteAnswersSurviveFilling(a, l, row, filled, lower, dbLower);
        DefiniteAnswersSurviveFilling(a, r, row, filled, lower, dbLower);
      case Not(inner) => DefiniteAnswersSurviveFilling(a, inner, row, filled, lower, dbLower);
      case _ => LeafSurvivesFilling(a, f, row, filled, lower, dbLower);
    }
  }

  /** `pr` answers NULL definitely, so its answer can change when the NULL is filled. */
  lemma {:induction false} PresenceNeedsTheGuard()
    ensures var a: AttributeMap := map["externalid" := Column("external_id", false)];
            var f := Present("externalid");
            var row: Row, filled: Row := map["external_id" := Null], map["external_id" := Varchar("x")];
            && Supported(a, f) && Fills(row, filled) && !DefiniteOnNullUnused(a, f, row)
            && Eval(Compile(a, f, c => c), row, c => c) == False
            && Eval(Compile(a, f, c => c), filled, c => c) == True
  {
    assert LowerAscii("externalid") == "externalid";
  }

  // --- from filter text to selected rows ------------------------------------------------------------------

  /** The rows a WHERE clause keeps: those on which it is true, not merely not false. */
  function Select(clause: Sql, rows: seq<Row>, dbLower: char -> char): seq<Row> {
    if rows == [] then []
    else (if Eval(clause, rows[0], dbLower) == True then [rows[0]] else []) + Select(clause, rows[1..], dbLower)
  }

  /** The rows on which a filter is certainly true. */
  function CertainRows(a: AttributeMap, f: Filter, rows: seq<Row>, lower: char -> char, dbLower: char -> char): seq<Row>
    requires Supported(a, f)
  {
    if rows == [] then []
    else (if Certain(a, f, rows[0], true, lower, dbLower) then [rows[0]] else [])
         + CertainRows(a, f, rows[1..], lower, dbLower)
  }

  function MeantRows(a: AttributeMap, f: Filter, rows: seq<Row>, fold: char -> char): seq<Row>
    requires Supported(a, f)
  {
    if rows == [] then []
    else (if Meaning(a, f, rows[0], fold) then [rows[0]] else []) + MeantRows(a, f, rows[1..], fold)
  }

  lemma {:induction false} SelectIsCertain(a: AttributeMap, f: Filter, rows: seq<Row>, lower: char -> char, dbLower: char -> char)
    requires KeepsWildcards(lower) && Supported(a, f)
    requires forall row :: row in rows ==> WellTyped(a, row) && BooleansPresent(a, row)
    ensures Select(Compile(a, f, lower), rows, dbLower) == CertainRows(a, f, rows, lower, dbLower)
  {
    if rows != [] {
      EvalIsCertain(a, f, rows[0], lower, dbLower);
      SelectIsCertain(a, f, rows[1..], lower, dbLower);
    }
  }

  lemma {:induction false} SelectIsMeant(a: AttributeMap, f: Filter, rows: seq<Row>, lower: char -> char, dbLower: char -> char)
    requires KeepsWildcards(lower) && Supported(a, f)
    requires forall row :: row in rows ==> WellTyped(a, row) && BooleansPresent(a, row) && Fits(a, f, row, lower, dbLower)
    ensures Select(Compile(a, f, lower), rows, dbLower) == MeantRows(a, f, rows, lower)
  {
    hide Eval, Compile, Meaning, NegationsReadValues, Agrees, WellTyped, BooleansPresent;
    if rows != [] {
      SelectedIsMeant(a, f, rows[0], lower, dbLower);
      SelectIsMeant(a, f, rows[1..], lower, dbLower);
    }
  }

  /**
   Writing a filter out and running the resulting clause selects, in order, exactly the rows on which
   the filter is certainly true; those are the rows it means, where it fits.
   */
  lemma {:induction false} PrintedFilterSelectsMeaning(
      a: AttributeMap, f: Filter, rows: seq<Row>, lower: char -> char, dbLower: char -> char)
    requires KeepsWildcards(lower) && NamesAttributes(a) && Supported(a, f)
    requires forall row :: row in rows ==> WellTyped(a, row) && BooleansPresent(a, row)
    ensures Spellable(OrTokens(f))
    ensures FilterOf(a, Print(f)) == Ok(Some(f))
    ensures var selected := Select(Compile(a, f, lower), rows, dbLower);
            && selected == CertainRows(a, f, rows, lower, dbLower)
            && ((forall row :: row in rows ==> Fits(a, f, row, lower, dbLower)) ==> selected == MeantRows(a, f, rows, lower))
  {
    hide Select, Compile, CertainRows, MeantRows, Fits, WellTyped, BooleansPresent;
    PrintRoundTrip(a, f);
    SelectIsCertain(a, f, rows, lower, dbLower);
    if forall row :: row in rows ==> Fits(a, f, row, lower, dbLower) {
      SelectIsMeant(a, f, rows, lower, dbLower);
    }
  }
}
