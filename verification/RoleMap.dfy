/** Claims and SCIM groups to a role, with the trace of what was tried (app/auth/rolemap.py). */
module RoleMap {
  import opened Text
  import opened Json

  const DEFAULT_ROLE := "user"

  // --- reading a claim ---------------------------------------------------------------------

  /** `path.split(".")` */
  function SplitDots(path: string): (parts: seq<string>)
    ensures parts != []
  {
    if path == "" then [""]
    else
      var rest := SplitDots(path[1..]);
      if path[0] == '.' then [""] + rest else [[path[0]] + rest[0]] + rest[1..]
  }

  /** Following every part through nested objects, if they are all there. */
  function Walk(v: Json, parts: seq<string>): Option<Json>
    decreases |parts|
  {
    if parts == [] then Some(v)
    else if !v.JObj? then None
    else match Lookup(v.fields, parts[0])
         case None => None
         case Some(inner) => Walk(inner, parts[1..])
  }

  /** The nested value, or else the whole path taken as one key. */
  function ClaimAt(claims: seq<(string, Json)>, path: string): Json {
    match Walk(JObj(claims), SplitDots(path))
    case Some(v) => v
    case None => Get(claims, path)
  }

  function JoinDots(parts: seq<string>): string
    requires parts != []
  {
    if |parts| == 1 then parts[0] else parts[0] + "." + JoinDots(parts[1..])
  }

  lemma {:induction false} SplitFirst(part: string, rest: string)
    requires '.' !in part
    ensures SplitDots(part + "." + rest) == [part] + SplitDots(rest)
  {
    var path := part + "." + rest;
    if part == "" {
      assert path[1..] == rest;
    } else {
      assert path[1..] == part[1..] + "." + rest;
      SplitFirst(part[1..], rest);
      assert [path[0]] + part[1..] == part;
    }
  }

  lemma {:induction false} SplitOne(part: string)
    requires '.' !in part
    ensures SplitDots(part) == [part]
  {
    if part != "" {
      SplitOne(part[1..]);
      assert [part[0]] + part[1..] == part;
    }
  }

  lemma {:induction false} SplitJoined(parts: seq<string>)
    requires parts != [] && forall part :: part in parts ==> '.' !in part
    ensures SplitDots(JoinDots(parts)) == parts
  {
    assert parts[0] in parts;
    if |parts| == 1 {
      SplitOne(parts[0]);
    } else {
      SplitJoined(parts[1..]);
      SplitFirst(parts[0], JoinDots(parts[1..]));
    }
  }

  /** A dotted path reads the nested value when it is there, and otherwise the literal key. */
  lemma {:induction false} NestedOrLiteral(claims: seq<(string, Json)>, parts: seq<string>)
    requires parts != [] && forall part :: part in parts ==> '.' !in part
    ensures ClaimAt(claims, JoinDots(parts)) ==
            match Walk(JObj(claims), parts) case Some(v) => v case None => Get(claims, JoinDots(parts))
    ensures |parts| == 1 ==> ClaimAt(claims, JoinDots(parts)) == Get(claims, parts[0])
  {
    SplitJoined(parts);
    if |parts| == 1 {
      assert parts[1..] == [];
    }
  }

  function ItemTexts(items: seq<Json>, repr: Json -> string): seq<string> {
    if items == [] then []
    else (if items[0].JNull? then [] else [ToStr(items[0], repr)]) + ItemTexts(items[1..], repr)
  }

  function AsTexts(v: Json, repr: Json -> string): seq<string> {
    match v
    case JNull => []
    case JList(items) => ItemTexts(items, repr)
    case _ => [ToStr(v, repr)]
  }

  function ClaimTexts(claims: seq<(string, Json)>, path: string, repr: Json -> string): seq<string> {
    if path == "" then [] else AsTexts(ClaimAt(claims, path), repr)
  }

  method ExtractClaim(claims: seq<(string, Json)>, path: string, repr: Json -> string) returns (r: seq<string>)
    ensures r == ClaimTexts(claims, path, repr)
  {
    if path == "" {
      return [];
    }
    var value := JObj(claims);
    var parts := SplitDots(path);
    assert parts[0..] == parts;
    var i := 0;
    while i < |parts|
      invariant 0 <= i <= |parts|
      invariant ClaimAt(claims, path) ==
                match Walk(value, parts[i..]) case Some(v) => v case None => Get(claims, path)
    {
      if !value.JObj? || Lookup(value.fields, parts[i]).None? {
        value := Get(claims, path);
        break;
      }
      value := Lookup(value.fields, parts[i]).value;
      i := i + 1;
    }
    return AsTexts(value, repr);
  }

  // --- rules -----------------------------------------------------------------------------------

  datatype Rule = Rule(operator: Option<string>, value: Option<string>, role: Option<string>)

  function OrDefault(x: Option<string>, default: string): string {
    match x case None => default case Some(s) => s
  }

  /** `re.search` is left open; a malformed pattern matches nothing. */
  predicate RuleMatches(operator: string, ruleValue: string, claim: string, search: (string, string) -> bool) {
    if operator == "equals" then claim == ruleValue
    else if operator == "contains" then Contains(claim, ruleValue)
    else if operator == "starts_with" then HasPrefix(claim, ruleValue)
    else operator == "regex" && search(ruleValue, claim)
  }

  datatype Source = Source(name: string, values: seq<string>)

  /** One line of the trace: which rule met which source, and the first value it matched. */
  datatype Attempt = Attempt(rule: nat, source: string, operator: string, value: string, role: string, matchedOn: Option<string>)

  predicate Meets(rule: Rule, claim: string, search: (string, string) -> bool) {
    RuleMatches(OrDefault(rule.operator, "equals"), OrDefault(rule.value, ""), claim, search)
  }

  function FirstMatch(rule: Rule, values: seq<string>, search: (string, string) -> bool): Option<string> {
    if values == [] then None
    else if Meets(rule, values[0], search) then Some(values[0])
    else FirstMatch(rule, values[1..], search)
  }

  /** The value a trace line reports is the first one the rule meets; none is reported only if none meets it. */
  lemma {:induction false} FirstMatchIs(rule: Rule, values: seq<string>, search: (string, string) -> bool)
    ensures match FirstMatch(rule, values, search)
            case None => forall v :: v in values ==> !Meets(rule, v, search)
            case Some(r) => exists i :: 0 <= i < |values| && values[i] == r && Meets(rule, values[i], search)
                                        && forall v :: v in values[..i] ==> !Meets(rule, v, search)
  {
    hide Meets;
    if values != [] {
      var rest := values[1..];
      FirstMatchIs(rule, rest, search);
      var r := FirstMatch(rule, rest, search);
      if !Meets(rule, values[0], search) && r.Some? {
        var i :| 0 <= i < |rest| && rest[i] == r.value && Meets(rule, rest[i], search)
                 && forall v :: v in rest[..i] ==> !Meets(rule, v, search);
        assert values[i + 1] == rest[i] && values[..i + 1] == [values[0]] + rest[..i];
      }
    }
  }

  function AttemptOf(source: Source, rules: seq<Rule>, i: nat, search: (string, string) -> bool): Attempt
    requires i < |rules|
  {
    Attempt(i + 1, source.name, OrDefault(rules[i].operator, "equals"), OrDefault(rules[i].value, ""),
            OrDefault(rules[i].role, DEFAULT_ROLE), FirstMatch(rules[i], source.values, search))
  }

  /** Every (source, rule) pair, sources first: the order in which they may be tried. */
  function SourceAttempts(source: Source, rules: seq<Rule>, search: (string, string) -> bool): seq<Attempt> {
    seq(|rules|, i requires 0 <= i < |rules| => AttemptOf(source, rules, i, search))
  }

  function Attempts(sources: seq<Source>, rules: seq<Rule>, search: (string, string) -> bool): seq<Attempt> {
    if sources == [] then []
    else SourceAttempts(sources[0], rules, search) + Attempts(sources[1..], rules, search)
  }

  predicate Unmatched(a: seq<Attempt>) {
    forall i :: 0 <= i < |a| ==> a[i].matchedOn.None?
  }

  /**
   The trace is the pairs up to and including the first match, whose role is the answer; without
   a match it is all pairs and the answer is the default.
   */
  predicate Resolves(all: seq<Attempt>, default: string, role: string, trace: seq<Attempt>) {
    && trace <= all
    && if Unmatched(trace) then trace == all && role == default
       else Unmatched(trace[..|trace| - 1]) && trace[|trace| - 1].matchedOn.Some? && role == trace[|trace| - 1].role
  }

  datatype Mapping = Mapping(roleSource: string, roleClaim: string, rules: seq<Rule>, defaultRole: string)

  function DefaultRole(m: Mapping): string {
    if m.defaultRole == "" then DEFAULT_ROLE else m.defaultRole
  }

  function Sources(m: Mapping, claims: seq<(string, Json)>, groups: seq<string>, repr: Json -> string): seq<Source> {
    var roleSource := if m.roleSource == "" then "claims" else m.roleSource;
    (if roleSource in {"claims", "claims_then_scim"} then [Source("claims", ClaimTexts(claims, m.roleClaim, repr))] else [])
    + (if roleSource in {"scim", "claims_then_scim"} then [Source("scim", groups)] else [])
  }

  method CandidateSources(m: Mapping, claims: seq<(string, Json)>, groups: seq<string>, repr: Json -> string)
    returns (sources: seq<Source>)
    ensures sources == Sources(m, claims, groups, repr)
  {
    var roleSource := if m.roleSource == "" then "claims" else m.roleSource;
    sources := [];
    if roleSource in {"claims", "claims_then_scim"} {
      var values := ExtractClaim(claims, m.roleClaim, repr);
      sources := sources + [Source("claims", values)];
    }
    if roleSource in {"scim", "claims_then_scim"} {
      sources := sources + [Source("scim", groups)];
    }
  }

  lemma {:induction false} AttemptsAppend(a: seq<Source>, b: seq<Source>, rules: seq<Rule>, search: (string, string) -> bool)
    ensures Attempts(a + b, rules, search) == Attempts(a, rules, search) + Attempts(b, rules, search)
  {
    if a == [] {
      assert a + b == b;
    } else {
      assert (a + b)[1..] == a[1..] + b;
      AttemptsAppend(a[1..], b, rules, search);
    }
  }

  lemma {:induction false} AttemptsSplit(sources: seq<Source>, n: nat, rules: seq<Rule>, search: (string, string) -> bool)
    requires n < |sources|
    ensures Attempts(sources, rules, search) ==
            Attempts(sources[..n], rules, search) + SourceAttempts(sources[n], rules, search)
            + Attempts(sources[n + 1..], rules, search)
    ensures Attempts(sources[..n + 1], rules, search) ==
            Attempts(sources[..n], rules, search) + SourceAttempts(sources[n], rules, search)
  {
    assert sources == sources[..n + 1] + sources[n + 1..];
    assert sources[..n + 1] == sources[..n] + [sources[n]];
    AttemptsAppend(sources[..n + 1], sources[n + 1..], rules, search);
    AttemptsAppend(sources[..n], [sources[n]], rules, search);
    assert Attempts([sources[n]], rules, search) == SourceAttempts(sources[n], rules, search) + [];
  }

  /** The rules against one source: the lines tried, ending at the first match if there is one. */
  method TryRules(source: Source, rules: seq<Rule>, search: (string, string) -> bool)
    returns (matched: bool, tried: seq<Attempt>)
    ensures tried <= SourceAttempts(source, rules, search)
    ensures if matched then tried != [] && Unmatched(tried[..|tried| - 1]) && tried[|tried| - 1].matchedOn.Some?
            else Unmatched(tried) && tried == SourceAttempts(source, rules, search)
  {
    ghost var all := SourceAttempts(source, rules, search);
    tried := [];
    for i := 0 to |rules|
      invariant tried == all[..i] && Unmatched(tried)
    {
      var attempt := AttemptOf(source, rules, i, search);
      ghost var before := tried;
      tried := tried + [attempt];
      assert tried[..|tried| - 1] == before;
      if attempt.matchedOn.Some? {
        return true, tried;
      }
    }
    return false, tried;
  }

  lemma {:induction false} MatchEnds(before: seq<Attempt>, tried: seq<Attempt>, here: seq<Attempt>, rest: seq<Attempt>, default: string)
    requires Unmatched(before) && tried <= here && tried != []
    requires Unmatched(tried[..|tried| - 1]) && tried[|tried| - 1].matchedOn.Some?
    ensures Resolves(before + here + rest, default, tried[|tried| - 1].role, before + tried)
  {
    var trace := before + tried;
    assert trace[..|trace| - 1] == before + tried[..|tried| - 1];
    assert trace[|trace| - 1] == tried[|tried| - 1];
  }

  method ResolveRole(m: Mapping, claims: seq<(string, Json)>, groups: seq<string>,
                     repr: Json -> string, search: (string, string) -> bool)
    returns (role: string, trace: seq<Attempt>)
    ensures Resolves(Attempts(Sources(m, claims, groups, repr), m.rules, search), DefaultRole(m), role, trace)
  {
    var sources := CandidateSources(m, claims, groups, repr);
    trace := [];
    for n := 0 to |sources|
      invariant trace == Attempts(sources[..n], m.rules, search) && Unmatched(trace)
    {
      AttemptsSplit(sources, n, m.rules, search);
      var matched, tried := TryRules(sources[n], m.rules, search);
      ghost var before := trace;
      trace := trace + tried;
      if matched {
        MatchEnds(before, tried, SourceAttempts(sources[n], m.rules, search),
                  Attempts(sources[n + 1..], m.rules, search), DefaultRole(m));
        return tried[|tried| - 1].role, trace;
      }
    }
    assert sources[..|sources|] == sources;
    return DefaultRole(m), trace;
  }

  lemma {:induction false} EarlierUnmatched(all: seq<Attempt>, default: string, role: string, trace: seq<Attempt>, k: nat)
    requires Resolves(all, default, role, trace) && k < |trace| - 1
    ensures k < |all| && all[k].matchedOn.None?
  {
    assert all[k] == trace[k] == trace[..|trace| - 1][k];
  }

  /** The role and the trace are determined by the pairs and the default. */
  lemma {:induction false} ResolvesUnique(all: seq<Attempt>, default: string, role1: string, trace1: seq<Attempt>, role2: string, trace2: seq<Attempt>)
    requires Resolves(all, default, role1, trace1) && Resolves(all, default, role2, trace2)
    ensures role1 == role2 && trace1 == trace2
  {
    if 0 < |trace1| < |trace2| {
      EarlierUnmatched(all, default, role2, trace2, |trace1| - 1);
    } else if 0 < |trace2| < |trace1| {
      EarlierUnmatched(all, default, role1, trace1, |trace2| - 1);
    }
  }

  lemma {:induction false} SourcesSplit(m: Mapping, claims: seq<(string, Json)>, groups: seq<string>, repr: Json -> string)
    requires m.roleSource == "claims_then_scim"
    ensures Sources(m, claims, groups, repr) ==
            Sources(m.(roleSource := "claims"), claims, groups, repr) + Sources(m.(roleSource := "scim"), claims, groups, repr)
    ensures DefaultRole(m.(roleSource := "claims")) == DefaultRole(m) == DefaultRole(m.(roleSource := "scim"))
  {
  }

  lemma {:induction false} ResolvesInTurn(one: seq<Attempt>, two: seq<Attempt>, default: string,
                                          role1: string, trace1: seq<Attempt>, role2: string, trace2: seq<Attempt>)
    requires Resolves(one, default, role1, trace1) && Resolves(two, default, role2, trace2)
    ensures if Unmatched(trace1) then Resolves(one + two, default, role2, trace1 + trace2)
            else Resolves(one + two, default, role1, trace1)
  {
    if Unmatched(trace1) && !Unmatched(trace2) {
      var trace := trace1 + trace2;
      assert trace[..|trace| - 1] == trace1 + trace2[..|trace2| - 1];
      assert trace[|trace| - 1] == trace2[|trace2| - 1];
    }
  }

  /** Trying claims and then SCIM is the claims answer when a claims rule matches, else the SCIM answer. */
  lemma {:induction false} ClaimsThenScim(m: Mapping, claims: seq<(string, Json)>, groups: seq<string>,
                       repr: Json -> string, search: (string, string) -> bool,
                       both: string, bothTrace: seq<Attempt>, one: string, oneTrace: seq<Attempt>, two: string, twoTrace: seq<Attempt>)
    requires m.roleSource == "claims_then_scim"
    requires Resolves(Attempts(Sources(m, claims, groups, repr), m.rules, search), DefaultRole(m), both, bothTrace)
    requires Resolves(Attempts(Sources(m.(roleSource := "claims"), claims, groups, repr), m.rules, search), DefaultRole(m), one, oneTrace)
    requires Resolves(Attempts(Sources(m.(roleSource := "scim"), claims, groups, repr), m.rules, search), DefaultRole(m), two, twoTrace)
    ensures both == if Unmatched(oneTrace) then two else one
    ensures bothTrace == if Unmatched(oneTrace) then oneTrace + twoTrace else oneTrace
  {
    SourcesSplit(m, claims, groups, repr);
    var a := Sources(m.(roleSource := "claims"), claims, groups, repr);
    var b := Sources(m.(roleSource := "scim"), claims, groups, repr);
    var all := Attempts(Sources(m, claims, groups, repr), m.rules, search);
    AttemptsAppend(a, b, m.rules, search);
    ResolvesInTurn(Attempts(a, m.rules, search), Attempts(b, m.rules, search), DefaultRole(m), one, oneTrace, two, twoTrace);
    if Unmatched(oneTrace) {
      ResolvesUnique(all, DefaultRole(m), both, bothTrace, two, oneTrace + twoTrace);
    } else {
      ResolvesUnique(all, DefaultRole(m), both, bothTrace, one, oneTrace);
    }
  }

  // --- what the answer is, rule by rule -----------------------------------------------------------

  /** What each operator asks of a claim. */
  ghost predicate Asks(rule: Rule, claim: string, search: (string, string) -> bool) {
    var value := match rule.value case None => "" case Some(v) => v;
    match rule.operator
    case None => claim == value
    case Some(operator) =>
      || (operator == "equals" && claim == value)
      || (operator == "contains" && exists a, b :: claim == a + value + b)
      || (operator == "starts_with" && exists b :: claim == value + b)
      || (operator == "regex" && search(value, claim))
  }

  lemma {:induction false} ContainsExactly(s: string, part: string)
    ensures Contains(s, part) <==> exists a, b :: s == a + part + b
  {
    if Contains(s, part) {
      var i :| 0 <= i <= |s| && HasPrefix(s[i..], part);
      assert s == s[..i] + part + s[i + |part|..];
    }
    if a, b :| s == a + part + b {
      assert s[|a|..] == part + b && HasPrefix(s[|a|..], part);
    }
  }

  lemma {:induction false} PrefixExactly(s: string, part: string)
    ensures HasPrefix(s, part) <==> exists b :: s == part + b
  {
    if HasPrefix(s, part) { assert s == part + s[|part|..]; }
  }

  lemma {:induction false} MeetsExactly(rule: Rule, claim: string, search: (string, string) -> bool)
    ensures Meets(rule, claim, search) <==> Asks(rule, claim, search)
  {
    hide Contains, HasPrefix;
    var value := match rule.value case None => "" case Some(v) => v;
    ContainsExactly(claim, value);
    PrefixExactly(claim, value);
  }

  /** Some value of the source is what the rule asks for. */
  ghost predicate Hits(source: Source, rule: Rule, search: (string, string) -> bool) {
    exists v :: v in source.values && Asks(rule, v, search)
  }

  lemma {:induction false} FirstMatchHits(rule: Rule, source: Source, search: (string, string) -> bool)
    ensures FirstMatch(rule, source.values, search).Some? <==> Hits(source, rule, search)
    ensures FirstMatch(rule, source.values, search).Some? ==>
              exists i :: 0 <= i < |source.values| && source.values[i] == FirstMatch(rule, source.values, search).value
                          && Asks(rule, source.values[i], search)
                          && forall j :: 0 <= j < i ==> !Asks(rule, source.values[j], search)
  {
    hide Meets, Asks, FirstMatch;
    FirstMatchIs(rule, source.values, search);
    forall v ensures Meets(rule, v, search) <==> Asks(rule, v, search) { MeetsExactly(rule, v, search); }
    var r := FirstMatch(rule, source.values, search);
    if r.Some? {
      var i :| 0 <= i < |source.values| && source.values[i] == r.value && Meets(rule, source.values[i], search)
               && forall v :: v in source.values[..i] ==> !Meets(rule, v, search);
      forall j | 0 <= j < i ensures !Asks(rule, source.values[j], search) {
        assert source.values[j] == source.values[..i][j];
      }
    }
  }

  /** No rule before the n-th hits the source. */
  ghost predicate NoneBefore(source: Source, rules: seq<Rule>, n: nat, search: (string, string) -> bool)
    requires n <= |rules|
  {
    forall i :: 0 <= i < n ==> !Hits(source, rules[i], search)
  }

  lemma {:induction false} SourceUnmatched(source: Source, rules: seq<Rule>, n: nat, search: (string, string) -> bool)
    requires n <= |rules| && NoneBefore(source, rules, n, search)
    ensures Unmatched(SourceAttempts(source, rules, search)[..n])
  {
    hide Hits;
    forall i | 0 <= i < n ensures SourceAttempts(source, rules, search)[i].matchedOn.None? {
      FirstMatchHits(rules[i], source, search);
    }
  }

  lemma {:induction false} AllUnmatched(sources: seq<Source>, rules: seq<Rule>, search: (string, string) -> bool)
    requires forall s :: s in sources ==> NoneBefore(s, rules, |rules|, search)
    ensures Unmatched(Attempts(sources, rules, search))
  {
    hide NoneBefore;
    if sources != [] {
      assert sources[0] in sources;
      AllUnmatched(sources[1..], rules, search);
      SourceUnmatched(sources[0], rules, |rules|, search);
      var here := SourceAttempts(sources[0], rules, search);
      assert here[..|rules|] == here;
    }
  }

  lemma {:induction false} ResolvesAt(before: seq<Attempt>, hit: Attempt, rest: seq<Attempt>, default: string, role: string, trace: seq<Attempt>)
    requires Unmatched(before) && hit.matchedOn.Some? && Resolves(before + [hit] + rest, default, role, trace)
    ensures role == hit.role && trace == before + [hit]
  {
    var stop := before + [hit];
    assert stop[..|stop| - 1] == before && stop[|stop| - 1] == hit;
    ResolvesUnique(before + [hit] + rest, default, role, trace, hit.role, stop);
  }

  /**
   The answer is the role of the first rule, sources first, that some value of its source satisfies,
   and the last line of the trace names that rule, its source and the first such value.
   */
  lemma {:induction false} FirstHitDecides(sources: seq<Source>, rules: seq<Rule>, search: (string, string) -> bool, default: string,
                                           role: string, trace: seq<Attempt>, s: nat, i: nat)
    requires Resolves(Attempts(sources, rules, search), default, role, trace)
    requires s < |sources| && i < |rules| && Hits(sources[s], rules[i], search) && NoneBefore(sources[s], rules, i, search)
    requires forall k :: 0 <= k < s ==> NoneBefore(sources[k], rules, |rules|, search)
    ensures role == (match rules[i].role case None => "user" case Some(r) => r)
    ensures trace != []
    ensures var last := trace[|trace| - 1];
            && last.rule == i + 1 && last.source == sources[s].name && last.role == role
            && last.operator == (match rules[i].operator case None => "equals" case Some(o) => o)
            && last.value == (match rules[i].value case None => "" case Some(v) => v)
            && last.matchedOn.Some? && last.matchedOn.value in sources[s].values && Asks(rules[i], last.matchedOn.value, search)
  {
    hide Hits, NoneBefore, Resolves, Attempts, Asks;
    var here := SourceAttempts(sources[s], rules, search);
    var before := Attempts(sources[..s], rules, search);
    AttemptsSplit(sources, s, rules, search);
    SourcesUnmatched(sources, s, rules, search);
    SourceUnmatched(sources[s], rules, i, search);
    FirstMatchHits(rules[i], sources[s], search);
    var rest := here[i + 1..] + Attempts(sources[s + 1..], rules, search);
    assert Attempts(sources, rules, search) == (before + here[..i]) + [here[i]] + rest by {
      assert here == here[..i] + [here[i]] + here[i + 1..];
    }
    ResolvesAt(before + here[..i], here[i], rest, default, role, trace);
  }

  lemma {:induction false} SourcesUnmatched(sources: seq<Source>, s: nat, rules: seq<Rule>, search: (string, string) -> bool)
    requires s <= |sources| && forall k :: 0 <= k < s ==> NoneBefore(sources[k], rules, |rules|, search)
    ensures Unmatched(Attempts(sources[..s], rules, search))
  {
    hide NoneBefore, Unmatched, Attempts;
    forall x | x in sources[..s] ensures NoneBefore(x, rules, |rules|, search) {
      var k :| 0 <= k < s && sources[..s][k] == x;
      assert sources[k] == x;
    }
    AllUnmatched(sources[..s], rules, search);
  }

  /** Without any such rule it is the default, and every pair was tried. */
  lemma {:induction false} NoHitDefaults(sources: seq<Source>, rules: seq<Rule>, search: (string, string) -> bool, default: string,
                                         role: string, trace: seq<Attempt>)
    requires Resolves(Attempts(sources, rules, search), default, role, trace)
    requires forall s :: s in sources ==> NoneBefore(s, rules, |rules|, search)
    ensures role == default && trace == Attempts(sources, rules, search)
  {
    AllUnmatched(sources, rules, search);
    ResolvesUnique(Attempts(sources, rules, search), default, role, trace, default, Attempts(sources, rules, search));
  }

  /** Which sources there are, in order; an unknown setting has none, a blank one means claims. */
  lemma {:induction false} SourcesAre(m: Mapping, claims: seq<(string, Json)>, groups: seq<string>, repr: Json -> string)
    ensures var token, scim := Source("claims", ClaimTexts(claims, m.roleClaim, repr)), Source("scim", groups);
            Sources(m, claims, groups, repr) ==
            match m.roleSource
            case "" => [token]
            case "claims" => [token]
            case "scim" => [scim]
            case "claims_then_scim" => [token, scim]
            case _ => []
    ensures DefaultRole(m) == if m.defaultRole == "" then "user" else m.defaultRole
  {
  }

  /** A claim that is a text is that one text; a list of texts is those; a missing one, or a blank name, is none. */
  lemma {:induction false} ClaimTextsAre(claims: seq<(string, Json)>, name: string, texts: seq<string>, repr: Json -> string)
    requires '.' !in name && name != ""
    ensures Lookup(claims, name) == None ==> ClaimTexts(claims, name, repr) == []
    ensures Lookup(claims, name) == Some(JNull) ==> ClaimTexts(claims, name, repr) == []
    ensures |texts| == 1 && Lookup(claims, name) == Some(JStr(texts[0])) ==> ClaimTexts(claims, name, repr) == texts
    ensures Lookup(claims, name) == Some(JList(seq(|texts|, i requires 0 <= i < |texts| => JStr(texts[i])))) ==>
              ClaimTexts(claims, name, repr) == texts
    ensures ClaimTexts(claims, "", repr) == []
  {
    NestedOrLiteral(claims, [name]);
    ItemTextsAre(seq(|texts|, i requires 0 <= i < |texts| => JStr(texts[i])), texts, repr);
  }

  lemma {:induction false} ItemTextsAre(items: seq<Json>, texts: seq<string>, repr: Json -> string)
    requires |items| == |texts| && forall i :: 0 <= i < |texts| ==> items[i] == JStr(texts[i])
    ensures ItemTexts(items, repr) == texts
  {
    if texts != [] {
      ItemTextsAre(items[1..], texts[1..], repr);
      assert texts == [texts[0]] + texts[1..];
    }
  }
}
