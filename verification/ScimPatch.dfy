/** PATCH on one user or one group (app/scim/router.py, app/scim/schemas.py). */
module ScimPatch {
  import opened Text
  import opened Json

  type Id = string

  datatype ScimError =
    | NotFound
    | NameRequired
    | Uniqueness
    | Ambiguous
    | Conflict
    | UnsupportedOp(op: string)

  datatype Operation = Operation(op: string, path: Option<string>, value: Json)

  // --- attribute paths ------------------------------------------------------------------

  predicate IsLetter(c: char) {
    'A' <= c <= 'Z' || 'a' <= c <= 'z'
  }

  predicate AllLetters(s: string) {
    forall i :: 0 <= i < |s| ==> IsLetter(s[i])
  }

  function LetterRun(s: string): (n: nat)
    ensures n <= |s|
  {
    if s != "" && IsLetter(s[0]) then 1 + LetterRun(s[1..]) else 0
  }

  /** Index of the first c in s, or |s|. */
  function IndexOf(s: string, c: char): (n: nat)
    ensures n <= |s| && (n < |s| ==> s[n] == c)
  {
    if s == "" || s[0] == c then 0 else 1 + IndexOf(s[1..], c)
  }

  function AfterLastColon(s: string): string {
    var n := IndexOf(s, ':');
    if n == |s| then s else AfterLastColon(s[n + 1..])
  }

  /** `attr[...]` and `attr[...].sub` lose their inner filter; anything else is unchanged. */
  function DropValueFilter(path: string): string {
    var n := LetterRun(path);
    if n == 0 || n == |path| || path[n] != '[' then path
    else
      var inner := path[n + 1..];
      var close := IndexOf(inner, ']');
      if close == |inner| then path
      else
        var sub := inner[close + 1..];
        if sub == "" || (|sub| > 1 && sub[0] == '.' && AllLetters(sub[1..])) then path[..n] + sub else path
  }

  function NormalisePath(path: string): string {
    LowerAscii(AfterLastColon(DropValueFilter(Strip(path))))
  }

  /** The ASCII letters, by code. */
  lemma {:induction false} LettersAre(c: char)
    ensures IsLetter(c) <==> 65 <= c as int < 91 || 97 <= c as int < 123
  {
  }

  lemma {:induction false} LetterRunIs(word: string, rest: string)
    requires AllLetters(word) && (rest == "" || !IsLetter(rest[0]))
    ensures LetterRun(word + rest) == |word|
  {
    if word == "" {
      assert word + rest == rest;
    } else {
      assert (word + rest)[1..] == word[1..] + rest;
      LetterRunIs(word[1..], rest);
    }
  }

  lemma {:induction false} IndexOfIs(before: string, c: char, rest: string)
    requires c !in before
    ensures IndexOf(before + [c] + rest, c) == |before|
  {
    if before != "" {
      assert (before + [c] + rest)[1..] == before[1..] + [c] + rest;
      IndexOfIs(before[1..], c, rest);
    }
  }

  lemma {:induction false} IndexOfNone(s: string, c: char)
    requires c !in s
    ensures IndexOf(s, c) == |s|
  {
    if s != "" { IndexOfNone(s[1..], c); }
  }

  lemma {:induction false} PlainPath(attribute: string)
    requires attribute != "" && AllLetters(attribute)
    ensures NormalisePath(attribute) == LowerAscii(attribute)
  {
    hide Strip, AfterLastColon, LowerAscii;
    LetterRunIs(attribute, "");
    assert attribute + "" == attribute;
    PathMeans(attribute, attribute);
  }

  lemma {:induction false} PathMeans(path: string, kept: string)
    requires Trimmed(path) && DropValueFilter(path) == kept && ':' !in kept
    ensures NormalisePath(path) == LowerAscii(kept)
  {
    hide Strip, DropValueFilter, AfterLastColon, LowerAscii;
    StripTrimmed(path);
    NoColon(kept);
  }

  /** A multi-valued path with any inner filter means the bare attribute. */
  lemma {:induction false} ValueFilterDropped(attribute: string, filter: string)
    requires attribute != "" && AllLetters(attribute) && ']' !in filter
    ensures var path := attribute + "[" + filter + "]";
            NormalisePath(path) == LowerAscii(attribute) && '[' in path
  {
    hide Strip, DropValueFilter, AfterLastColon, LowerAscii;
    var path := attribute + "[" + filter + "]";
    assert path[|attribute|] == '[';
    BracketDropped(attribute, filter, path);
    PathMeans(path, attribute);
  }

  lemma {:induction false} NoColon(s: string)
    requires ':' !in s
    ensures AfterLastColon(s) == s
  {
    IndexOfNone(s, ':');
  }

  lemma {:induction false} BracketDropped(attribute: string, filter: string, path: string)
    requires attribute != "" && AllLetters(attribute) && ']' !in filter && path == attribute + "[" + filter + "]"
    ensures DropValueFilter(path) == attribute
  {
    var tail := "[" + filter + "]";
    assert path == attribute + tail && path[|attribute|] == '[';
    LetterRunIs(attribute, tail);
    var inner := path[|attribute| + 1..];
    assert inner == filter + [']'] + "";
    IndexOfIs(filter, ']', "");
    assert inner[|filter| + 1..] == "";
    assert path[..|attribute|] + "" == attribute;
  }

  /** What a path means after its bracket, if that is nothing or one sub-attribute; otherwise the whole path is taken as it is. */
  lemma {:induction false} DropExactly(attribute: string, filter: string, rest: string)
    requires attribute != "" && AllLetters(attribute) && ']' !in filter
    ensures DropValueFilter(attribute + "[" + filter + "]" + rest) ==
            if rest == "" || (|rest| >= 2 && rest[0] == '.' && AllLetters(rest[1..])) then attribute + rest
            else attribute + "[" + filter + "]" + rest
  {
    var path := attribute + "[" + filter + "]" + rest;
    var tail := "[" + filter + "]" + rest;
    assert path == attribute + tail && path[|attribute|] == '[';
    LetterRunIs(attribute, tail);
    var inner := path[|attribute| + 1..];
    assert inner == filter + [']'] + rest;
    IndexOfIs(filter, ']', rest);
    assert inner[|filter| + 1..] == rest && path[..|attribute|] == attribute;
  }

  /** A multi-valued path with an inner filter and a sub-attribute means that sub-attribute of the bare attribute. */
  lemma {:induction false} SubAttributeKept(attribute: string, filter: string, sub: string)
    requires attribute != "" && AllLetters(attribute) && ']' !in filter && sub != "" && AllLetters(sub)
    ensures NormalisePath(attribute + "[" + filter + "]." + sub) == LowerAscii(attribute + "." + sub)
  {
    hide NormalisePath, DropValueFilter, LowerAscii;
    var path, rest := attribute + "[" + filter + "]." + sub, "." + sub;
    assert path == attribute + "[" + filter + "]" + rest && rest[1..] == sub;
    LastIsLetter(sub);
    assert path[|path| - 1] == sub[|sub| - 1] && path[0] == attribute[0];
    DropExactly(attribute, filter, rest);
    assert attribute + rest == attribute + "." + sub;
    PathMeans(path, attribute + "." + sub);
  }

  lemma {:induction false} LastIsLetter(s: string)
    requires s != "" && AllLetters(s)
    ensures !IsSpace(s[|s| - 1]) && !IsSpace(s[0])
  {
  }

  /** Whitespace around a path does not matter. */
  lemma {:induction false} PaddedPath(before: string, path: string, after: string)
    requires AllSpace(before) && AllSpace(after) && Trimmed(path)
    ensures NormalisePath(before + path + after) == NormalisePath(path)
  {
    hide DropValueFilter, AfterLastColon, LowerAscii;
    StripGaps(before, path, after);
    StripTrimmed(path);
  }

  lemma {:induction false} AfterLastColonIs(prefix: string, last: string)
    requires ':' !in last
    ensures AfterLastColon(prefix + ":" + last) == last
    decreases |prefix|
  {
    var s := prefix + ":" + last;
    var n := IndexOf(s, ':');
    IndexOfNone(last, ':');
    if ':' !in prefix {
      IndexOfIs(prefix, ':', last);
      assert s == prefix + [':'] + last && s[|prefix| + 1..] == last;
    } else {
      FirstColonWithin(prefix, ":" + last);
      assert prefix + (":" + last) == s;
      assert s[n + 1..] == prefix[n + 1..] + ":" + last;
      AfterLastColonIs(prefix[n + 1..], last);
    }
  }

  lemma {:induction false} FirstColonWithin(prefix: string, rest: string)
    requires ':' in prefix
    ensures IndexOf(prefix + rest, ':') < |prefix|
  {
    if prefix[0] != ':' {
      assert (prefix + rest)[1..] == prefix[1..] + rest;
      FirstColonWithin(prefix[1..], rest);
    }
  }

  /** An attribute of a schema extension is the attribute its URN ends in. */
  lemma {:induction false} UrnPrefixDropped(urn: string, attribute: string)
    requires Trimmed(urn + ":" + attribute) && '[' !in urn && '[' !in attribute && ':' !in attribute
    ensures NormalisePath(urn + ":" + attribute) == LowerAscii(attribute)
  {
    hide Strip, LowerAscii;
    var path := urn + ":" + attribute;
    StripTrimmed(path);
    assert '[' !in path;
    var n := LetterRun(path);
    assert n < |path| ==> path[n] in path;
    AfterLastColonIs(urn, attribute);
  }

  // --- users ---------------------------------------------------------------------------------

  datatype User = User(
    userName: string,
    externalId: Option<string>,
    displayName: string,
    givenName: string,
    familyName: string,
    email: string,
    active: bool)

  datatype Field = UserName | ExternalId | DisplayName | GivenName | FamilyName | Email | Active

  const USER_FIELDS: map<string, Field> := map[
    "username" := UserName,
    "externalid" := ExternalId,
    "displayname" := DisplayName,
    "name.givenname" := GivenName,
    "name.familyname" := FamilyName,
    "name.formatted" := DisplayName,
    "emails.value" := Email,
    "emails" := Email,
    "active" := Active
  ]

  function FieldAt(path: string): Option<Field> {
    var key := NormalisePath(path);
    if key in USER_FIELDS then Some(USER_FIELDS[key]) else None
  }

  function CoerceBool(v: Json, default: bool): bool
    decreases v
  {
    match v
    case JBool(b) => b
    case JStr(s) =>
      var lowered := LowerAscii(Strip(s));
      if lowered in {"true", "1", "yes", "on", "t"} then true
      else if lowered in {"false", "0", "no", "off", "f", ""} then false
      else default
    case JNum(_, zero) => !zero
    case JObj(fields) =>
      (match Lookup(fields, "active")
       case Some(inner) => CoerceBool(inner, default)
       case None => default)
    case _ => default
  }

  /** The formatted name is the display name; both dotted names and both spellings of the address are fields of their own. */
  lemma {:induction false} DottedPathsMean()
    ensures FieldAt("name.formatted") == Some(DisplayName) && FieldAt("name.givenName") == Some(GivenName)
    ensures FieldAt("name.familyName") == Some(FamilyName) && FieldAt("emails.value") == Some(Email)
  {
    hide NormalisePath, LowerAscii;
    FormattedPath();
    GivenPath();
    FamilyPath();
    AddressPath();
  }

  lemma {:induction false} FormattedPath()
    ensures NormalisePath("name.formatted") == "name.formatted"
  {
    hide NormalisePath;
    DottedPath("name", "formatted");
    assert "name" + "." + "formatted" == "name.formatted";
  }

  lemma {:induction false} GivenPath()
    ensures NormalisePath("name.givenName") == "name.givenname"
  {
    hide NormalisePath;
    DottedPath("name", "givenName");
    assert "name" + "." + "givenName" == "name.givenName";
  }

  lemma {:induction false} FamilyPath()
    ensures NormalisePath("name.familyName") == "name.familyname"
  {
    hide NormalisePath;
    DottedPath("name", "familyName");
    assert "name" + "." + "familyName" == "name.familyName";
  }

  lemma {:induction false} AddressPath()
    ensures NormalisePath("emails.value") == "emails.value"
  {
    hide NormalisePath;
    DottedPath("emails", "value");
    assert "emails" + "." + "value" == "emails.value";
  }

  lemma {:induction false} DottedPath(head: string, tail: string)
    requires head != "" && tail != "" && AllLetters(head) && AllLetters(tail)
    ensures NormalisePath(head + "." + tail) == LowerAscii(head + "." + tail)
  {
    hide NormalisePath, LowerAscii;
    var path := head + "." + tail;
    LastIsLetter(tail);
    assert path[0] == head[0] && path[|path| - 1] == tail[|tail| - 1] && path[|head|] == '.';
    assert path == head + ("." + tail);
    LetterRunIs(head, "." + tail);
    PathMeans(path, path);
  }

  /** The text stored for a non-boolean field: list and object wrappers are opened first. */
  function FieldText(v: Json, repr: Json -> string): string {
    var first :=
      if v.JList? && v.items != [] then
        (if v.items[0].JObj? then Get(v.items[0].fields, "value") else v.items[0])
      else v;
    var plain :=
      if first.JObj? then
        (match Lookup(first.fields, "value") case None => JStr("") case Some(inner) => inner)
      else first;
    if plain.JNull? then "" else ToStr(plain, repr)
  }

  function SetText(u: User, field: Field, s: string): User {
    match field
    case UserName => u.(userName := s)
    case ExternalId => u.(externalId := Some(s))
    case DisplayName => u.(displayName := s)
    case GivenName => u.(givenName := s)
    case FamilyName => u.(familyName := s)
    case Email => u.(email := s)
    case Active => u
  }

  function SetAt(u: User, at: Option<Field>, v: Json, repr: Json -> string): User {
    match at
    case None => u
    case Some(Active) => u.(active := CoerceBool(v, u.active))
    case Some(field) => SetText(u, field, FieldText(v, repr))
  }

  /** Removing a text field blanks it; removing `active` deactivates. */
  function ClearAt(u: User, at: Option<Field>): User {
    match at
    case None => u
    case Some(Active) => u.(active := false)
    case Some(field) => SetText(u, field, "")
  }

  /** `_set_user_field` */
  function SetField(u: User, path: string, v: Json, repr: Json -> string): User {
    SetAt(u, FieldAt(path), v, repr)
  }

  function SetFields(u: User, fields: seq<(string, Json)>, repr: Json -> string): User {
    if fields == [] then u
    else
      var last := |fields| - 1;
      SetField(SetFields(u, fields[..last], repr), fields[last].0, fields[last].1, repr)
  }

  /**
   A boolean spelled as a string, in any case and padding, is that boolean, a number is whether it is
   not zero, a wrapper is what it wraps, and anything else leaves the default.
   */
  lemma {:induction false} SpelledBooleans(before: string, word: string, after: string, b: bool, zero: bool, text: string,
                                           items: seq<Json>, default: bool)
    requires AllSpace(before) && AllSpace(after) && Trimmed(word)
    ensures var w := LowerAscii(word);
            var spelled := if w == "true" || w == "1" || w == "yes" || w == "on" || w == "t" then true
                           else if w == "false" || w == "0" || w == "no" || w == "off" || w == "f" || w == "" then false
                           else default;
            && CoerceBool(JStr(before + word + after), default) == spelled
            && CoerceBool(JObj([("active", JStr(before + word + after))]), default) == spelled
    ensures CoerceBool(JBool(b), default) == b && CoerceBool(JNum(text, zero), default) == !zero
    ensures CoerceBool(JNull, default) == CoerceBool(JList(items), default) == CoerceBool(JObj([]), default) == default
  {
    StripGaps(before, word, after);
  }

  /** The stored value a field holds, as JSON. */
  function FieldValue(u: User, field: Field): Json {
    match field
    case UserName => JStr(u.userName)
    case ExternalId => (match u.externalId case None => JNull case Some(s) => JStr(s))
    case DisplayName => JStr(u.displayName)
    case GivenName => JStr(u.givenName)
    case FamilyName => JStr(u.familyName)
    case Email => JStr(u.email)
    case Active => JBool(u.active)
  }

  /** Text as a connector may send it: bare, in an object's `value`, or as the first item of a list of either. */
  predicate HoldsText(v: Json, s: string) {
    BareText(v, s) || (v.JList? && v.items != [] && BareText(v.items[0], s))
  }

  predicate BareText(v: Json, s: string) {
    v == JStr(s) || (v.JObj? && Lookup(v.fields, "value") == Some(JStr(s)))
  }

  /** A boolean as a connector may send it: itself, spelled as a string, or in an object's `active`. */
  predicate HoldsBool(v: Json, b: bool)
    decreases v
  {
    match v
    case JBool(c) => c == b
    case JStr(s) => LowerAscii(Strip(s)) == if b then "true" else "false"
    case JObj(fields) => (match Lookup(fields, "active") case None => false case Some(inner) => HoldsBool(inner, b))
    case _ => false
  }

  lemma {:induction false} HeldTextIsStored(v: Json, s: string, repr: Json -> string)
    requires HoldsText(v, s)
    ensures FieldText(v, repr) == s
  {
  }

  lemma {:induction false} HeldBoolIsStored(v: Json, b: bool, default: bool)
    requires HoldsBool(v, b)
    ensures CoerceBool(v, default) == b
    decreases v
  {
    if v.JObj? { HeldBoolIsStored(Lookup(v.fields, "active").value, b, default); }
    assert "false" !in {"true", "1", "yes", "on", "t"};
  }

  /** Setting a path to a text or a boolean, in any wrapper, stores it in that field and changes no other. */
  lemma {:induction false} SetReadsBack(u: User, path: string, v: Json, s: string, b: bool, repr: Json -> string, field: Field)
    requires FieldAt(path).Some?
    requires if FieldAt(path) == Some(Active) then HoldsBool(v, b) else HoldsText(v, s)
    ensures FieldValue(SetField(u, path, v, repr), field) ==
            if field != FieldAt(path).value then FieldValue(u, field) else if field == Active then JBool(b) else JStr(s)
  {
    hide FieldAt, FieldText, CoerceBool, HoldsText, HoldsBool;
    if FieldAt(path) == Some(Active) {
      HeldBoolIsStored(v, b, u.active);
    } else {
      HeldTextIsStored(v, s, repr);
    }
  }

  /** The `emails` list a read shows (`user_to_resource`): one entry, or none for a blank address. */
  function EmailsShown(u: User): Json {
    if u.email == "" then JList([])
    else JList([JObj([("value", JStr(u.email)), ("primary", JBool(true)), ("type", JStr("work"))])])
  }

  /**
   Patching the emails list as it was read keeps the user exactly when there is an address: an empty
   list is not opened, so its Python text "[]" would be stored.
   */
  lemma {:induction false} EmailsAsRead(u: User, path: string, repr: Json -> string)
    requires FieldAt(path) == Some(Email)
    ensures SetField(u, path, EmailsShown(u), repr) == u <==> u.email != "" || repr(JList([])) == ""
  {
    hide FieldAt;
    if u.email != "" { HeldTextIsStored(EmailsShown(u), u.email, repr); }
  }

  predicate HasPath(o: Operation) {
    o.path.Some? && o.path.value != ""
  }

  /** `_apply_user_operation` */
  function ApplyUser(u: User, o: Operation, repr: Json -> string): Result<User, ScimError> {
    var op := LowerAscii(o.op);
    if op == "remove" then Ok(if HasPath(o) then ClearAt(u, FieldAt(o.path.value)) else u)
    else if op !in {"add", "replace"} then Err(UnsupportedOp(o.op))
    else if HasPath(o) then Ok(SetField(u, o.path.value, o.value, repr))
    else if o.value.JObj? then Ok(SetFields(u, o.value.fields, repr))
    else Ok(u)
  }

  function ApplyUserAll(u: User, ops: seq<Operation>, repr: Json -> string): Result<User, ScimError> {
    if ops == [] then Ok(u)
    else match ApplyUserAll(u, ops[..|ops| - 1], repr)
         case Err(e) => Err(e)
         case Ok(v) => ApplyUser(v, ops[|ops| - 1], repr)
  }

  /** The loop over the attributes of a path-less value. */
  method SetFieldsLoop(user: User, fields: seq<(string, Json)>, repr: Json -> string) returns (u: User)
    ensures u == SetFields(user, fields, repr)
  {
    u := user;
    for i := 0 to |fields|
      invariant u == SetFields(user, fields[..i], repr)
    {
      assert fields[..i + 1][..i] == fields[..i];
      u := SetField(u, fields[i].0, fields[i].1, repr);
    }
    assert fields[..|fields|] == fields;
  }

  method ApplyUserOperation(user: User, o: Operation, repr: Json -> string) returns (r: Result<User, ScimError>)
    ensures r == ApplyUser(user, o, repr)
  {
    var op := LowerAscii(o.op);
    if op == "remove" {
      if HasPath(o) {
        match FieldAt(o.path.value) {
          case None =>
          case Some(Active) => return Ok(user.(active := false));
          case Some(field) => return Ok(SetText(user, field, ""));
        }
      }
      return Ok(user);
    }
    if op !in {"add", "replace"} {
      return Err(UnsupportedOp(o.op));
    }
    if HasPath(o) {
      return Ok(SetField(user, o.path.value, o.value, repr));
    }
    if o.value.JObj? {
      var u := SetFieldsLoop(user, o.value.fields, repr);
      return Ok(u);
    }
    return Ok(user);
  }

  /** Applying ops1 + ops2 is applying ops1 and then ops2. */
  lemma {:induction false} PatchIsLeftFold(u: User, ops1: seq<Operation>, ops2: seq<Operation>, repr: Json -> string)
    ensures ApplyUserAll(u, ops1 + ops2, repr) ==
            match ApplyUserAll(u, ops1, repr)
            case Err(e) => Err(e)
            case Ok(v) => ApplyUserAll(v, ops2, repr)
    decreases |ops2|
  {
    var all := ops1 + ops2;
    if ops2 == [] {
      assert all == ops1;
    } else {
      var front := ops2[..|ops2| - 1];
      assert all[..|all| - 1] == ops1 + front;
      assert all[|all| - 1] == ops2[|ops2| - 1];
      PatchIsLeftFold(u, ops1, front, repr);
    }
  }

  predicate SupportedOp(o: Operation) {
    LowerAscii(o.op) in {"add", "replace", "remove"}
  }

  /** The patch fails exactly when some operation, anywhere, is unsupported. */
  lemma {:induction false} PatchFailsExactly(u: User, ops: seq<Operation>, repr: Json -> string)
    ensures ApplyUserAll(u, ops, repr).Err? <==> exists i :: 0 <= i < |ops| && !SupportedOp(ops[i])
  {
    if ops != [] {
      var front := ops[..|ops| - 1];
      PatchFailsExactly(u, front, repr);
      if i :| 0 <= i < |ops| && !SupportedOp(ops[i]) && i < |ops| - 1 {
        assert front[i] == ops[i];
      }
    }
  }

  /** An explicit path and a path-less object with that one key do the same. */
  lemma {:induction false} ShapesAgree(u: User, op: string, path: string, v: Json, repr: Json -> string)
    requires path != "" && LowerAscii(op) in {"add", "replace"}
    ensures ApplyUser(u, Operation(op, Some(path), v), repr) == ApplyUser(u, Operation(op, None, JObj([(path, v)])), repr)
  {
    var fields := [(path, v)];
    assert fields[..0] == [];
    assert SetFields(u, fields, repr) == SetField(SetFields(u, [], repr), path, v, repr);
  }

  /** What one operation does to `active`, read off its shape without applying it. */
  function ActiveAfter(active: bool, o: Operation): bool {
    var op := LowerAscii(o.op);
    if op == "remove" then active && !(HasPath(o) && FieldAt(o.path.value) == Some(Active))
    else if HasPath(o) then
      if FieldAt(o.path.value) == Some(Active) then CoerceBool(o.value, active) else active
    else if o.value.JObj? then ActiveFields(active, o.value.fields)
    else active
  }

  function ActiveFields(active: bool, fields: seq<(string, Json)>): bool {
    if fields == [] then active
    else
      var last := |fields| - 1;
      var before := ActiveFields(active, fields[..last]);
      if FieldAt(fields[last].0) == Some(Active) then CoerceBool(fields[last].1, before) else before
  }

  function ActiveAfterAll(active: bool, ops: seq<Operation>): bool {
    if ops == [] then active else ActiveAfter(ActiveAfterAll(active, ops[..|ops| - 1]), ops[|ops| - 1])
  }

  lemma {:induction false} SetFieldsActive(u: User, fields: seq<(string, Json)>, repr: Json -> string)
    ensures SetFields(u, fields, repr).active == ActiveFields(u.active, fields)
  {
    if fields != [] {
      var last := |fields| - 1;
      SetFieldsActive(u, fields[..last], repr);
      SetAtActive(SetFields(u, fields[..last], repr), FieldAt(fields[last].0), fields[last].1, repr);
    }
  }

  lemma {:induction false} SetAtActive(u: User, at: Option<Field>, v: Json, repr: Json -> string)
    ensures SetAt(u, at, v, repr).active == if at == Some(Active) then CoerceBool(v, u.active) else u.active
    ensures ClearAt(u, at).active == (u.active && at != Some(Active))
  {
  }

  lemma {:induction false} OperationActive(u: User, o: Operation, repr: Json -> string)
    requires ApplyUser(u, o, repr).Ok?
    ensures ApplyUser(u, o, repr).value.active == ActiveAfter(u.active, o)
  {
    if HasPath(o) { SetAtActive(u, FieldAt(o.path.value), o.value, repr); }
    if o.value.JObj? { SetFieldsActive(u, o.value.fields, repr); }
  }

  /** A patch that is accepted leaves `active` as its string, boolean, path and path-less shapes say. */
  lemma {:induction false} PatchActive(u: User, ops: seq<Operation>, repr: Json -> string)
    requires ApplyUserAll(u, ops, repr).Ok?
    ensures ApplyUserAll(u, ops, repr).value.active == ActiveAfterAll(u.active, ops)
  {
    if ops != [] {
      var front := ops[..|ops| - 1];
      PatchActive(u, front, repr);
      OperationActive(ApplyUserAll(u, front, repr).value, ops[|ops| - 1], repr);
    }
  }

  /** Removing a path blanks the field there, or deactivates, and changes no other field. */
  lemma {:induction false} RemoveBlanks(u: User, op: string, path: string, v: Json, repr: Json -> string, field: Field)
    requires LowerAscii(op) == "remove" && path != "" && FieldAt(path).Some?
    ensures var r := ApplyUser(u, Operation(op, Some(path), v), repr);
            r.Ok? && FieldValue(r.value, field) ==
                     if field != FieldAt(path).value then FieldValue(u, field) else if field == Active then JBool(false) else JStr("")
  {
    hide FieldAt;
  }

  /** An unknown path, a remove without a path, and a path-less value that is no object change nothing. */
  lemma {:induction false} IgnoredOperations(u: User, o: Operation, repr: Json -> string)
    requires SupportedOp(o)
    requires match o.path
             case Some(path) => path != "" && FieldAt(path) == None
             case None => LowerAscii(o.op) == "remove" || !o.value.JObj?
    ensures ApplyUser(u, o, repr) == Ok(u)
  {
  }

  /** The last value sent for a field in a path-less object. */
  function LastFor(fields: seq<(string, Json)>, field: Field): Option<Json> {
    if fields == [] then None
    else
      var last := |fields| - 1;
      if FieldAt(fields[last].0) == Some(field) then Some(fields[last].1) else LastFor(fields[..last], field)
  }

  /** A path-less object leaves each text field at the last text sent for it, and the fields it does not mention alone. */
  lemma {:induction false} LastValueWins(u: User, op: string, fields: seq<(string, Json)>, field: Field, s: string, repr: Json -> string)
    requires LowerAscii(op) in {"add", "replace"} && field != Active
    ensures var r := ApplyUser(u, Operation(op, None, JObj(fields)), repr);
            && r.Ok?
            && (LastFor(fields, field) == None ==> FieldValue(r.value, field) == FieldValue(u, field))
            && (LastFor(fields, field).Some? && HoldsText(LastFor(fields, field).value, s) ==> FieldValue(r.value, field) == JStr(s))
  {
    SetFieldsLast(u, fields, field, s, repr);
  }

  lemma {:induction false} SetFieldsLast(u: User, fields: seq<(string, Json)>, field: Field, s: string, repr: Json -> string)
    requires field != Active
    ensures var after := SetFields(u, fields, repr);
            && (LastFor(fields, field) == None ==> FieldValue(after, field) == FieldValue(u, field))
            && (LastFor(fields, field).Some? && HoldsText(LastFor(fields, field).value, s) ==> FieldValue(after, field) == JStr(s))
  {
    hide FieldAt, HoldsText, FieldText, CoerceBool, SetAt, FieldValue;
    if fields != [] {
      var last := |fields| - 1;
      SetFieldsLast(u, fields[..last], field, s, repr);
      LastFieldSet(SetFields(u, fields[..last], repr), FieldAt(fields[last].0), fields[last].1, field, s, repr);
    }
  }

  lemma {:induction false} LastFieldSet(u: User, at: Option<Field>, v: Json, field: Field, s: string, repr: Json -> string)
    requires field != Active
    ensures at != Some(field) ==> FieldValue(SetAt(u, at, v, repr), field) == FieldValue(u, field)
    ensures at == Some(field) && HoldsText(v, s) ==> FieldValue(SetAt(u, at, v, repr), field) == JStr(s)
  {
    hide HoldsText, FieldText, CoerceBool;
    if HoldsText(v, s) { HeldTextIsStored(v, s, repr); }
  }

  // --- groups -----------------------------------------------------------------------------------

  /** A group as a set of members; the stored row keeps a list. */
  datatype Group = Group(displayName: string, externalId: Option<string>, members: set<Id>)

  /** `_member_ids` */
  function MemberIds(v: Json, repr: Json -> string): seq<Id> {
    match v
    case JList(items) => ItemIds(items, repr)
    case JObj(fields) => if IsTruthy(Get(fields, "value")) then [ToStr(Get(fields, "value"), repr)] else []
    case _ => []
  }

  function ItemIds(items: seq<Json>, repr: Json -> string): seq<Id> {
    if items == [] then []
    else
      var item := items[0];
      (if !IsTruthy(item) then []
       else if item.JObj? then [ToStr(Get(item.fields, "value"), repr)]
       else [ToStr(item, repr)])
      + ItemIds(items[1..], repr)
  }

  /** The text between the first two double quotes and what follows it; an empty one leaves the second to open. */
  function NextQuoted(s: string): (r: Option<(string, string)>)
    ensures r.Some? ==> |r.value.1| < |s|
  {
    var open := IndexOf(s, '"');
    if open == |s| then None
    else
      var inner := s[open + 1..];
      var close := IndexOf(inner, '"');
      if close == |inner| then None
      else if close == 0 then Some(("", inner))
      else Some((inner[..close], inner[close + 1..]))
  }

  /** Every non-empty stretch between double quotes, from the left. */
  function Quoted(s: string): seq<string>
    decreases |s|
  {
    match NextQuoted(s)
    case None => []
    case Some((text, rest)) => (if text == "" then [] else [text]) + Quoted(rest)
  }

  /** The ids a members operation names; a remove may name them in the path's filter instead. */
  function NamedIds(o: Operation, repr: Json -> string): seq<Id> {
    var ids := MemberIds(o.value, repr);
    if LowerAscii(o.op) == "remove" && ids == [] && o.path.Some? && '[' in o.path.value then Quoted(o.path.value)
    else ids
  }

  function PathOf(o: Operation): string {
    NormalisePath(match o.path case None => "" case Some(p) => p)
  }

  /** One group operation over member sets: union with existing users, assignment, or difference. */
  function ApplyGroup(existing: set<Id>, g: Group, o: Operation, repr: Json -> string): Group {
    var op := LowerAscii(o.op);
    var path := PathOf(o);
    var named := set id | id in NamedIds(o, repr);
    if path != "members" then g.(displayName := RenamedTo(g.displayName, o, repr))
    else if op == "add" then g.(members := g.members + named * existing)
    else if op == "replace" then g.(members := named * existing)
    else if op == "remove" then g.(members := g.members - named)
    else g
  }

  /** The display name after an operation that is not about members. */
  function RenamedTo(name: string, o: Operation, repr: Json -> string): string {
    var op := LowerAscii(o.op);
    if op !in {"add", "replace"} then name
    else if PathOf(o) == "displayname" then
      if IsTruthy(o.value) then ToStr(o.value, repr) else name
    else if o.value.JObj? && IsTruthy(Get(o.value.fields, "displayName")) then
      ToStr(Get(o.value.fields, "displayName"), repr)
    else name
  }

  function ApplyGroupAll(existing: set<Id>, g: Group, ops: seq<Operation>, repr: Json -> string): Group {
    if ops == [] then g
    else ApplyGroup(existing, ApplyGroupAll(existing, g, ops[..|ops| - 1], repr), ops[|ops| - 1], repr)
  }

  lemma {:induction false} GroupMembersExist(existing: set<Id>, g: Group, ops: seq<Operation>, repr: Json -> string)
    requires g.members <= existing
    ensures ApplyGroupAll(existing, g, ops, repr).members <= existing
  {
    if ops != [] { GroupMembersExist(existing, g, ops[..|ops| - 1], repr); }
  }

  lemma {:induction false} QuotedNone(s: string)
    requires '"' !in s
    ensures Quoted(s) == []
  {
    IndexOfNone(s, '"');
  }

  lemma {:induction false} NextQuotedIs(before: string, id: Id, after: string)
    requires id != "" && '"' !in before && '"' !in id
    ensures NextQuoted(before + "\"" + id + "\"" + after) == Some((id, after))
  {
    hide IndexOf;
    var s := before + "\"" + id + "\"" + after;
    var inner := id + "\"" + after;
    assert s == before + ['"'] + inner;
    IndexOfIs(before, '"', inner);
    assert s[|before| + 1..] == inner;
    assert inner == id + ['"'] + after;
    IndexOfIs(id, '"', after);
    assert inner[..|id|] == id && inner[|id| + 1..] == after;
  }

  lemma {:induction false} QuotedOne(before: string, id: Id, after: string)
    requires id != "" && '"' !in before && '"' !in id && '"' !in after
    ensures Quoted(before + "\"" + id + "\"" + after) == [id]
  {
    hide NextQuoted;
    NextQuotedIs(before, id, after);
    QuotedNone(after);
    assert [id] + [] == [id];
  }

  /** value eq "<id>" */
  function MemberFilter(id: Id): string {
    "value eq " + "\"" + id + "\""
  }

  lemma {:induction false} MemberFilterQuotes(id: Id)
    requires id != "" && '"' !in id
    ensures Quoted("members" + "[" + MemberFilter(id) + "]") == [id]
  {
    var before := "members" + "[" + "value eq ";
    assert "members" + "[" + MemberFilter(id) + "]" == before + "\"" + id + "\"" + "]";
    QuotedOne(before, id, "]");
  }

  lemma {:induction false} MemberFilterClosed(id: Id)
    requires ']' !in id
    ensures ']' !in MemberFilter(id) && AllLetters("members")
  {
    var head := "value eq " + "\"";
    assert forall i :: 0 <= i < |head| ==> head[i] != ']';
  }

  /** A members remove, in any spelling and shape. */
  predicate RemovesMembers(o: Operation) {
    LowerAscii(o.op) == "remove" && PathOf(o) == "members"
  }

  lemma {:induction false} RemoveIsDifference(existing: set<Id>, g: Group, o: Operation, repr: Json -> string)
    requires RemovesMembers(o)
    ensures ApplyGroup(existing, g, o, repr) == g.(members := g.members - set id | id in NamedIds(o, repr))
  {
    hide LowerAscii, PathOf, NamedIds, RenamedTo;
  }

  lemma {:induction false} LowerWords()
    ensures LowerAscii("members") == "members" && LowerAscii("remove") == "remove"
  {
  }

  lemma {:induction false} NamedByPath(op: string, path: string, ids: seq<Id>, repr: Json -> string)
    requires LowerAscii(op) == "remove" && ids == if '[' in path then Quoted(path) else []
    ensures NamedIds(Operation(op, Some(path), JNull), repr) == ids
  {
    hide Quoted, LowerAscii;
  }

  /** Removing by path filter, with no value, removes exactly the quoted member. */
  lemma {:induction false} RemoveByPathFilter(existing: set<Id>, g: Group, id: Id, repr: Json -> string)
    requires id != "" && '"' !in id && ']' !in id
    ensures ApplyGroup(existing, g, Operation("remove", Some("members" + "[" + MemberFilter(id) + "]"), JNull), repr)
            == g.(members := g.members - {id})
  {
    hide LowerAscii, NormalisePath, Quoted, MemberFilter, ApplyGroup, NamedIds;
    var path := "members" + "[" + MemberFilter(id) + "]";
    var o := Operation("remove", Some(path), JNull);
    LowerWords();
    MemberFilterQuotes(id);
    MemberFilterClosed(id);
    ValueFilterDropped("members", MemberFilter(id));
    NamedByPath("remove", path, [id], repr);
    RemoveIsDifference(existing, g, o, repr);
    assert (set x | x in [id]) == {id};
  }

  /**
   A members remove empties the group exactly when it names every member. One that names nobody
   changes nothing, although section 3.5.2.2 of RFC 7644 has a remove without a filter remove them all.
   */
  lemma {:induction false} RemoveEmptiesExactly(existing: set<Id>, g: Group, o: Operation, repr: Json -> string)
    requires RemovesMembers(o)
    ensures var after, named := ApplyGroup(existing, g, o, repr), set id | id in NamedIds(o, repr);
            && (after.members == {} <==> g.members <= named)
            && (NamedIds(o, repr) == [] ==> after == g)
  {
    hide ApplyGroup, NamedIds, RemovesMembers;
    var named := set id | id in NamedIds(o, repr);
    RemoveIsDifference(existing, g, o, repr);
    if NamedIds(o, repr) == [] {
      assert named == {} && g.members - named == g.members;
    }
    if id :| id in g.members && id !in named {
      assert id in g.members - named;
    }
  }

  lemma {:induction false} MembersPath(path: string)
    requires LowerAscii(path) == "members"
    ensures NormalisePath(path) == "members" && '[' !in path
  {
    hide NormalisePath;
    forall i | 0 <= i < |path| ensures IsLetter(path[i]) && path[i] != '[' {
      assert LowerAscii(path)[i] == "members"[i];
    }
    PlainPath(path);
  }

  /** The plain spelling of such a remove, with no value, leaves the group as it was. */
  lemma {:induction false} BareRemoveIgnored(existing: set<Id>, g: Group, op: string, path: string, repr: Json -> string)
    requires LowerAscii(op) == "remove" && LowerAscii(path) == "members"
    ensures ApplyGroup(existing, g, Operation(op, Some(path), JNull), repr) == g
  {
    hide LowerAscii, NormalisePath, ApplyGroup, NamedIds;
    MembersPath(path);
    NamedByPath(op, path, [], repr);
    RemoveEmptiesExactly(existing, g, Operation(op, Some(path), JNull), repr);
  }

  // --- group operations on the JSON a connector sends ------------------------------------------------

  /** A members value that names exactly these ids: a list of texts or `{"value": id}` objects, or one such object. */
  predicate ListsIds(v: Json, ids: seq<Id>) {
    && (forall id :: id in ids ==> id != "")
    && match v
       case JList(items) => |items| == |ids| && forall i :: 0 <= i < |items| ==> BareText(items[i], ids[i])
       case JObj(fields) => |ids| == 1 && Lookup(fields, "value") == Some(JStr(ids[0]))
       case _ => false
  }

  lemma {:induction false} ItemIdsAre(items: seq<Json>, ids: seq<Id>, repr: Json -> string)
    requires |items| == |ids| && forall i :: 0 <= i < |items| ==> BareText(items[i], ids[i]) && ids[i] != ""
    ensures ItemIds(items, repr) == ids
  {
    if ids != [] {
      ItemIdsAre(items[1..], ids[1..], repr);
      assert BareText(items[0], ids[0]);
      assert ids == [ids[0]] + ids[1..];
    }
  }

  lemma {:induction false} ListedAreNamed(o: Operation, ids: seq<Id>, repr: Json -> string)
    requires ListsIds(o.value, ids) && (ids != [] || LowerAscii(o.op) != "remove")
    ensures NamedIds(o, repr) == ids
  {
    if o.value.JList? {
      forall i | 0 <= i < |ids| ensures ids[i] != "" { assert ids[i] in ids; }
      ItemIdsAre(o.value.items, ids, repr);
    } else {
      assert ids[0] in ids && ids == [ids[0]];
    }
  }

  /** Add is union with the stored users named, replace is assignment, remove is difference; nothing else changes. */
  lemma {:induction false} MembersOperations(existing: set<Id>, g: Group, o: Operation, ids: seq<Id>, repr: Json -> string)
    requires PathOf(o) == "members" && ListsIds(o.value, ids)
    ensures LowerAscii(o.op) == "add" ==>
              ApplyGroup(existing, g, o, repr) == g.(members := g.members + set id | id in ids && id in existing)
    ensures LowerAscii(o.op) == "replace" ==>
              ApplyGroup(existing, g, o, repr) == g.(members := set id | id in ids && id in existing)
    ensures LowerAscii(o.op) == "remove" && ids != [] ==>
              ApplyGroup(existing, g, o, repr) == g.(members := g.members - set id | id in ids)
    ensures LowerAscii(o.op) !in {"add", "replace", "remove"} ==> ApplyGroup(existing, g, o, repr) == g
  {
    hide NamedIds, PathOf, ListsIds, LowerAscii, RenamedTo;
    if ids != [] || LowerAscii(o.op) != "remove" { ListedAreNamed(o, ids, repr); }
    assert (set id | id in ids) * existing == set id | id in ids && id in existing;
  }

  /** A display name sent by path or in a path-less object becomes the group's; a blank one is ignored. Members stay. */
  lemma {:induction false} RenameOperations(existing: set<Id>, g: Group, o: Operation, s: string, repr: Json -> string)
    requires LowerAscii(o.op) in {"add", "replace"}
    requires || (PathOf(o) == "displayname" && o.value == JStr(s))
             || (PathOf(o) !in {"members", "displayname"} && o.value.JObj? && Lookup(o.value.fields, "displayName") == Some(JStr(s)))
    ensures ApplyGroup(existing, g, o, repr) == g.(displayName := if s == "" then g.displayName else s)
  {
    hide PathOf, LowerAscii;
  }

  /** Anything else leaves the group alone. */
  lemma {:induction false} OtherGroupOperations(existing: set<Id>, g: Group, o: Operation, repr: Json -> string)
    requires PathOf(o) != "members"
    requires || LowerAscii(o.op) !in {"add", "replace"}
             || (PathOf(o) != "displayname" && (o.value.JObj? ==> Lookup(o.value.fields, "displayName") == None))
    ensures ApplyGroup(existing, g, o, repr) == g
  {
    hide PathOf, LowerAscii;
  }
}
