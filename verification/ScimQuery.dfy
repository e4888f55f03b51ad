/** `list_users` (app/scim/router.py): a filter over the stored users, one page at a time. */
module ScimQuery {
  import opened Text
  import opened Json
  import opened FilterLexer
  import opened FilterParser
  import opened FilterPrinter
  import opened FilterSql
  import opened Pagination
  import ScimPatch
  import ScimStore

  /** The row of the users table behind a stored user. */
  function RowOf(id: string, u: ScimPatch.User): Row {
    map[
      "id" := Varchar(id),
      "user_name" := Varchar(u.userName),
      "external_id" := (match u.externalId case None => Null case Some(s) => Varchar(s)),
      "display_name" := Varchar(u.displayName),
      "given_name" := Varchar(u.givenName),
      "family_name" := Varchar(u.familyName),
      "email" := Varchar(u.email),
      "active" := Flag(u.active)]
  }

  function CellOf(v: Json): Cell {
    match v
    case JStr(s) => Varchar(s)
    case JBool(b) => Flag(b)
    case _ => Null
  }

  /** The row of the groups table behind a stored group. */
  function GroupRowOf(id: string, g: ScimPatch.Group): Row {
    map[
      "id" := Varchar(id),
      "display_name" := Varchar(g.displayName),
      "external_id" := (match g.externalId case None => Null case Some(s) => Varchar(s))]
  }

  /** On both tables a filter on `id` compares the id, and a group filter sees the name and externalId of the group. */
  lemma {:induction false} FilterSeesRow(id: string, u: ScimPatch.User, g: ScimPatch.Group)
    ensures "id" in USER_ATTRIBUTES && !USER_ATTRIBUTES["id"].isBoolean
    ensures At(RowOf(id, u), USER_ATTRIBUTES["id"].name) == Varchar(id)
    ensures GROUP_ATTRIBUTES.Keys == {"id", "displayname", "externalid"}
    ensures forall key :: key in GROUP_ATTRIBUTES ==> !GROUP_ATTRIBUTES[key].isBoolean
    ensures At(GroupRowOf(id, g), GROUP_ATTRIBUTES["id"].name) == Varchar(id)
    ensures At(GroupRowOf(id, g), GROUP_ATTRIBUTES["displayname"].name) == Varchar(g.displayName)
    ensures At(GroupRowOf(id, g), GROUP_ATTRIBUTES["externalid"].name)
         == (match g.externalId case None => Null case Some(s) => Varchar(s))
  {
  }

  /** A filter compares at a path the field that PATCH sets there. */
  lemma {:induction false} FilterSeesAttribute(id: string, u: ScimPatch.User, key: string)
    requires key in USER_ATTRIBUTES && key != "id"
    ensures key in ScimPatch.USER_FIELDS
    ensures At(RowOf(id, u), USER_ATTRIBUTES[key].name) == CellOf(ScimPatch.FieldValue(u, ScimPatch.USER_FIELDS[key]))
    ensures USER_ATTRIBUTES[key].isBoolean <==> ScimPatch.USER_FIELDS[key] == ScimPatch.Active
  {
  }

  lemma {:induction false} RowsAreTyped(id: string, u: ScimPatch.User)
    ensures WellTyped(USER_ATTRIBUTES, RowOf(id, u)) && BooleansPresent(USER_ATTRIBUTES, RowOf(id, u))
  {
    forall key | key in USER_ATTRIBUTES
      ensures var cell := At(RowOf(id, u), USER_ATTRIBUTES[key].name);
              if cell == Null then !USER_ATTRIBUTES[key].isBoolean else cell.Flag? == USER_ATTRIBUTES[key].isBoolean
    {
      if key != "id" { FilterSeesAttribute(id, u, key); }
    }
  }

  /** The user names a WHERE clause keeps; no clause keeps them all. */
  function Kept(users: map<string, ScimPatch.User>, clause: Option<Sql>, dbLower: char -> char): set<string> {
    set id | id in users && (clause.Some? ==> Eval(clause.value, RowOf(id, users[id]), dbLower) == True) :: users[id].userName
  }

  /** The names of the users on which a filter is certainly true. */
  function CertainNames(users: map<string, ScimPatch.User>, f: Filter, lower: char -> char, dbLower: char -> char): set<string>
    requires Supported(USER_ATTRIBUTES, f)
  {
    set id | id in users && Certain(USER_ATTRIBUTES, f, RowOf(id, users[id]), true, lower, dbLower) :: users[id].userName
  }

  /** The names of the users a filter means, with Python's lower() as the fold. */
  function MeantNames(users: map<string, ScimPatch.User>, f: Filter, lower: char -> char): set<string>
    requires Supported(USER_ATTRIBUTES, f)
  {
    set id | id in users && Meaning(USER_ATTRIBUTES, f, RowOf(id, users[id]), lower) :: users[id].userName
  }

  /** The filter fits every stored user: its comparisons agree, and no negated one reads a NULL. */
  predicate FitsAll(users: map<string, ScimPatch.User>, f: Filter, lower: char -> char, dbLower: char -> char)
    requires Supported(USER_ATTRIBUTES, f)
  {
    forall id :: id in users ==> Fits(USER_ATTRIBUTES, f, RowOf(id, users[id]), lower, dbLower)
  }

  function Insert(x: string, rows: seq<string>): seq<string> {
    if rows == [] || Less(x, rows[0]) then [x] + rows else [rows[0]] + Insert(x, rows[1..])
  }

  /** ORDER BY user_name. The order is unique (`Pagination.OneOrder`), so any choice gives it. */
  ghost function OrderedNames(names: set<string>): seq<string> {
    if names == {} then []
    else
      var x :| x in names;
      Insert(x, OrderedNames(names - {x}))
  }

  lemma {:induction false} LessTransitive(x: string, y: string, z: string)
    requires Less(x, y) && Less(y, z)
    ensures Less(x, z)
  {
    if x != "" && x[0] == y[0] && y[0] == z[0] { LessTransitive(x[1..], y[1..], z[1..]); }
  }

  lemma {:induction false} InsertOrders(x: string, rows: seq<string>)
    requires InOrder(rows) && x !in rows
    ensures InOrder(Insert(x, rows)) && (forall y :: y in Insert(x, rows) <==> y == x || y in rows)
  {
    if rows != [] {
      LessTotal(x, rows[0]);
      if Less(x, rows[0]) {
        forall j | 0 <= j < |rows| ensures Less(x, rows[j]) {
          if j > 0 { LessTransitive(x, rows[0], rows[j]); }
        }
      } else {
        var rest := Insert(x, rows[1..]);
        InsertOrders(x, rows[1..]);
        forall j | 0 <= j < |rest| ensures Less(rows[0], rest[j]) {
          assert rest[j] in rest;
        }
        assert rows == [rows[0]] + rows[1..];
      }
    }
  }

  lemma {:induction false} OrderedNamesAre(names: set<string>)
    ensures InOrder(OrderedNames(names)) && (forall x :: x in OrderedNames(names) <==> x in names)
    decreases names
  {
    if names != {} {
      var x :| x in names && OrderedNames(names) == Insert(x, OrderedNames(names - {x}));
      OrderedNamesAre(names - {x});
      InsertOrders(x, OrderedNames(names - {x}));
    }
  }

  /** One response, or the error a bad filter gives. */
  ghost function ListUsers(db: ScimStore.Db, expression: string, startIndex: Parameter, count: Parameter,
                           lower: char -> char, dbLower: char -> char): Result<Page, FilterError> {
    match FilterOf(USER_ATTRIBUTES, expression)
    case Err(e) => Err(e)
    case Ok(built) =>
      if built.None? then Ok(List(OrderedNames(Kept(db.users, None, dbLower)), startIndex, count))
      else
        BuiltIsSupported(USER_ATTRIBUTES, expression, built.value);
        var clause := Compile(USER_ATTRIBUTES, built.value, lower);
        Ok(List(OrderedNames(Kept(db.users, Some(clause), dbLower)), startIndex, count))
  }

  /** Asking for a printed filter gives the pages of exactly the users on which it is certainly true. */
  lemma {:induction false} ListingIsCertain(db: ScimStore.Db, f: Filter, startIndex: Parameter, count: Parameter,
                         lower: char -> char, dbLower: char -> char)
    requires KeepsWildcards(lower) && Supported(USER_ATTRIBUTES, f)
    ensures Spellable(OrTokens(f))
    ensures ListUsers(db, Print(f), startIndex, count, lower, dbLower)
         == Ok(List(OrderedNames(CertainNames(db.users, f, lower, dbLower)), startIndex, count))
  {
    hide Certain, Eval, Compile, RowOf, Print, FilterOf, KeepsWildcards;
    DeployedNames();
    PrintRoundTrip(USER_ATTRIBUTES, f);
    var clause := Compile(USER_ATTRIBUTES, f, lower);
    forall id | id in db.users
      ensures Eval(clause, RowOf(id, db.users[id]), dbLower) == True
         <==> Certain(USER_ATTRIBUTES, f, RowOf(id, db.users[id]), true, lower, dbLower)
    {
      RowsAreTyped(id, db.users[id]);
      EvalIsCertain(USER_ATTRIBUTES, f, RowOf(id, db.users[id]), lower, dbLower);
    }
    assert Kept(db.users, Some(clause), dbLower) == CertainNames(db.users, f, lower, dbLower);
  }

  /** Where the filter fits, those are exactly the users it means. */
  lemma {:induction false} CertainNamesAreMeant(users: map<string, ScimPatch.User>, f: Filter, lower: char -> char, dbLower: char -> char)
    requires Supported(USER_ATTRIBUTES, f) && FitsAll(users, f, lower, dbLower)
    ensures CertainNames(users, f, lower, dbLower) == MeantNames(users, f, lower)
  {
    hide Certain, Meaning, Reading, NegationsReadValues, Agrees, RowOf;
    forall id | id in users
      ensures Certain(USER_ATTRIBUTES, f, RowOf(id, users[id]), true, lower, dbLower)
         <==> Meaning(USER_ATTRIBUTES, f, RowOf(id, users[id]), lower)
    {
      var row := RowOf(id, users[id]);
      ReadingIsMeaning(USER_ATTRIBUTES, f, row, lower, dbLower);
      if Certain(USER_ATTRIBUTES, f, row, true, lower, dbLower) {
        CertainIsReading(USER_ATTRIBUTES, f, row, true, lower, dbLower);
      } else if Reading(USER_ATTRIBUTES, f, row, lower, dbLower) {
        ReadingIsCertain(USER_ATTRIBUTES, f, row, true, lower, dbLower);
      }
    }
  }

  /** Listing by a filter that fits every stored user gives the pages of exactly the users it means. */
  lemma {:induction false} ListingIsMeaning(db: ScimStore.Db, f: Filter, startIndex: Parameter, count: Parameter,
                         lower: char -> char, dbLower: char -> char)
    requires KeepsWildcards(lower) && Supported(USER_ATTRIBUTES, f) && FitsAll(db.users, f, lower, dbLower)
    ensures Spellable(OrTokens(f))
    ensures ListUsers(db, Print(f), startIndex, count, lower, dbLower)
         == Ok(List(OrderedNames(MeantNames(db.users, f, lower)), startIndex, count))
  {
    hide *;
    ListingIsCertain(db, f, startIndex, count, lower, dbLower);
    CertainNamesAreMeant(db.users, f, lower, dbLower);
  }

  lemma {:induction false} NameIsListed(users: map<string, ScimPatch.User>, f: Filter, id: string, lower: char -> char, dbLower: char -> char)
    requires Supported(USER_ATTRIBUTES, f) && id in users
    ensures Certain(USER_ATTRIBUTES, f, RowOf(id, users[id]), true, lower, dbLower) ==>
              users[id].userName in CertainNames(users, f, lower, dbLower)
    ensures Meaning(USER_ATTRIBUTES, f, RowOf(id, users[id]), lower) ==> users[id].userName in MeantNames(users, f, lower)
  {
    hide Certain, Meaning, RowOf;
  }

  lemma {:induction false} NameIsUser(db: ScimStore.Db, f: Filter, id: string, lower: char -> char, dbLower: char -> char)
    requires ScimStore.Consistent(db) && Supported(USER_ATTRIBUTES, f) && id in db.users
    ensures db.users[id].userName in CertainNames(db.users, f, lower, dbLower)
       <==> Certain(USER_ATTRIBUTES, f, RowOf(id, db.users[id]), true, lower, dbLower)
    ensures db.users[id].userName in MeantNames(db.users, f, lower)
       <==> Meaning(USER_ATTRIBUTES, f, RowOf(id, db.users[id]), lower)
  {
    hide Certain, Meaning, RowOf;
  }

  /** For a comparison or its negation that is the exact condition: no stored user may be one it does not fit. */
  lemma {:induction false} LiteralListingExactly(db: ScimStore.Db, f: Filter, lower: char -> char, dbLower: char -> char)
    requires ScimStore.Consistent(db) && Supported(USER_ATTRIBUTES, f) && IsLiteral(f)
    ensures CertainNames(db.users, f, lower, dbLower) == MeantNames(db.users, f, lower) <==> FitsAll(db.users, f, lower, dbLower)
  {
    hide CertainNames, MeantNames, Certain, Meaning, Fits, RowOf, ScimStore.Consistent;
    if FitsAll(db.users, f, lower, dbLower) {
      CertainNamesAreMeant(db.users, f, lower, dbLower);
    }
    if id :| id in db.users && !Fits(USER_ATTRIBUTES, f, RowOf(id, db.users[id]), lower, dbLower) {
      NameIsUser(db, f, id, lower, dbLower);
      LiteralExactly(USER_ATTRIBUTES, f, RowOf(id, db.users[id]), lower, dbLower);
    }
  }

  lemma {:induction false} NegatedOnNull(a: AttributeMap, attribute: string, operator: string, v: string, row: Row,
                                         lower: char -> char, dbLower: char -> char)
    requires SupportedLeaf(a, Compare(attribute, operator, v)) && At(row, Resolve(a, attribute).value.name) == Null
    ensures var f := Not(Compare(attribute, operator, v));
            Supported(a, f) && Meaning(a, f, row, lower) && !Certain(a, f, row, true, lower, dbLower)
  {
  }

  lemma {:induction false} ExternalIdLeaf(v: string)
    ensures SupportedLeaf(USER_ATTRIBUTES, Compare("externalid", "eq", v))
    ensures Resolve(USER_ATTRIBUTES, "externalid").value.name == "external_id"
  {
    assert LowerAscii("externalid") == "externalid";
  }

  lemma {:induction false} NotListed(db: ScimStore.Db, f: Filter, name: string, startIndex: Parameter, count: Parameter,
                                     lower: char -> char, dbLower: char -> char)
    requires KeepsWildcards(lower) && Supported(USER_ATTRIBUTES, f) && name !in CertainNames(db.users, f, lower, dbLower)
    ensures Spellable(OrTokens(f))
    ensures var reply := ListUsers(db, Print(f), startIndex, count, lower, dbLower);
            reply.Ok? && name !in reply.value.resources
  {
    var names := CertainNames(db.users, f, lower, dbLower);
    ListingIsCertain(db, f, startIndex, count, lower, dbLower);
    OrderedNamesAre(names);
    if name in List(OrderedNames(names), startIndex, count).resources {
      PageHoldsRows(OrderedNames(names), startIndex, count, name);
    }
  }

  lemma {:induction false} PageHoldsRows(rows: seq<string>, startIndex: Parameter, count: Parameter, name: string)
    requires name in List(rows, startIndex, count).resources
    ensures name in rows
  {
  }

  /** A user without an externalId is meant by `not (externalId eq v)` and never listed for it. */
  lemma {:induction false} NegationMissesNull(db: ScimStore.Db, id: string, v: string, startIndex: Parameter, count: Parameter,
                                              lower: char -> char, dbLower: char -> char)
    requires KeepsWildcards(lower) && ScimStore.Consistent(db) && id in db.users && db.users[id].externalId == None
    ensures var f := Not(Compare("externalid", "eq", v));
            && Supported(USER_ATTRIBUTES, f) && Spellable(OrTokens(f))
            && db.users[id].userName in MeantNames(db.users, f, lower)
            && var reply := ListUsers(db, Print(f), startIndex, count, lower, dbLower);
               reply.Ok? && db.users[id].userName !in reply.value.resources
  {
    hide Resolve, LowerAscii, Certain, Meaning, Print, ListUsers, CertainNames, MeantNames;
    var f := Not(Compare("externalid", "eq", v));
    ExternalIdLeaf(v);
    NegatedOnNull(USER_ATTRIBUTES, "externalid", "eq", v, RowOf(id, db.users[id]), lower, dbLower);
    NameIsUser(db, f, id, lower, dbLower);
    NotListed(db, f, db.users[id].userName, startIndex, count, lower, dbLower);
  }

  /**
   The replies a client gets that asks for a filter and steps startIndex by itemsPerPage until a page
   is empty.
   */
  ghost function Replies(db: ScimStore.Db, f: Filter, start: nat, count: Parameter, lower: char -> char, dbLower: char -> char)
    : seq<Page>
    requires KeepsWildcards(lower) && Supported(USER_ATTRIBUTES, f) && 1 <= start && Paginate(Absent, count).1 > 0
    decreases |OrderedNames(CertainNames(db.users, f, lower, dbLower))| + 1 - start
  {
    ListingIsCertain(db, f, Given(start), count, lower, dbLower);
    match ListUsers(db, Print(f), Given(start), count, lower, dbLower)
    case Err(_) => []
    case Ok(page) =>
      if page.itemsPerPage == 0 then [] else [page] + Replies(db, f, start + page.itemsPerPage, count, lower, dbLower)
  }

  /** Every name such a client sees. */
  ghost function Shown(db: ScimStore.Db, f: Filter, count: Parameter, lower: char -> char, dbLower: char -> char): seq<string>
    requires KeepsWildcards(lower) && Supported(USER_ATTRIBUTES, f) && Paginate(Absent, count).1 > 0
  {
    Resources(Replies(db, f, 1, count, lower, dbLower))
  }

  lemma {:induction false} RepliesStep(db: ScimStore.Db, f: Filter, start: nat, count: Parameter, lower: char -> char, dbLower: char -> char)
    requires KeepsWildcards(lower) && Supported(USER_ATTRIBUTES, f) && 1 <= start && Paginate(Absent, count).1 > 0
    ensures var page := List(OrderedNames(CertainNames(db.users, f, lower, dbLower)), Given(start), count);
            Replies(db, f, start, count, lower, dbLower) ==
            if page.itemsPerPage == 0 then [] else [page] + Replies(db, f, start + page.itemsPerPage, count, lower, dbLower)
  {
    hide CertainNames, OrderedNames, ListUsers, Print, KeepsWildcards, Supported, List;
    ListingIsCertain(db, f, Given(start), count, lower, dbLower);
  }

  lemma {:induction false} RepliesArePages(db: ScimStore.Db, f: Filter, start: nat, count: Parameter, lower: char -> char, dbLower: char -> char)
    requires KeepsWildcards(lower) && Supported(USER_ATTRIBUTES, f) && 1 <= start && Paginate(Absent, count).1 > 0
    ensures Replies(db, f, start, count, lower, dbLower)
         == Pages(OrderedNames(CertainNames(db.users, f, lower, dbLower)), start, count)
    decreases |OrderedNames(CertainNames(db.users, f, lower, dbLower))| + 1 - start
  {
    hide CertainNames, OrderedNames, Replies, KeepsWildcards, Supported;
    var page := List(OrderedNames(CertainNames(db.users, f, lower, dbLower)), Given(start), count);
    RepliesStep(db, f, start, count, lower, dbLower);
    if page.itemsPerPage > 0 {
      RepliesArePages(db, f, start + page.itemsPerPage, count, lower, dbLower);
    }
  }

  /**
   Stepping through the replies shows every user on which the filter is certainly true once, in order,
   and no other; those are the users it means, where it fits.
   */
  lemma {:induction false} ListingTilesMeaning(db: ScimStore.Db, f: Filter, count: Parameter, lower: char -> char, dbLower: char -> char)
    requires KeepsWildcards(lower) && Supported(USER_ATTRIBUTES, f) && Paginate(Absent, count).1 > 0
    ensures var shown := Shown(db, f, count, lower, dbLower);
            && InOrder(shown)
            && (forall name :: name in shown <==> name in CertainNames(db.users, f, lower, dbLower))
            && (FitsAll(db.users, f, lower, dbLower) ==> forall name :: name in shown <==> name in MeantNames(db.users, f, lower))
  {
    hide CertainNames, MeantNames, OrderedNames, Replies, FitsAll, KeepsWildcards, Supported;
    var names := CertainNames(db.users, f, lower, dbLower);
    RepliesArePages(db, f, 1, count, lower, dbLower);
    OrderedNamesAre(names);
    PagesTile(OrderedNames(names), count);
    if FitsAll(db.users, f, lower, dbLower) {
      CertainNamesAreMeant(db.users, f, lower, dbLower);
    }
  }

  function ReplaceOp(path: string, s: string): (o: ScimPatch.Operation)
    ensures ScimPatch.SupportedOp(o)
  {
    assert LowerAscii("replace") == "replace";
    ScimPatch.Operation("replace", Some(path), JStr(s))
  }

  lemma {:induction false} ReplaceSets(e: ScimStore.Env, db: ScimStore.Db, id: string, path: string, s: string, now: int)
    requires id in db.users && path != "" && ScimStore.PatchUser(e, db, id, [ReplaceOp(path, s)], now).outcome.Ok?
    ensures var after := ScimStore.PatchUser(e, db, id, [ReplaceOp(path, s)], now).db.users;
            id in after && after[id] == ScimPatch.SetField(db.users[id], path, JStr(s), e.repr)
  {
    var u, o := db.users[id], ReplaceOp(path, s);
    assert [o][..0] == [] && LowerAscii("replace") == "replace";
    assert ScimPatch.ApplyUserAll(u, [o], e.repr) == ScimPatch.ApplyUser(u, o, e.repr);
  }

  lemma {:induction false} OwnTextIsCertain(path: string, s: string, row: Row, lower: char -> char, dbLower: char -> char)
    requires Resolve(USER_ATTRIBUTES, path).Ok? && !Resolve(USER_ATTRIBUTES, path).value.isBoolean
    requires At(row, Resolve(USER_ATTRIBUTES, path).value.name) == Varchar(s)
    ensures Supported(USER_ATTRIBUTES, Compare(path, "eq", s)) && Meaning(USER_ATTRIBUTES, Compare(path, "eq", s), row, lower)
    ensures Certain(USER_ATTRIBUTES, Compare(path, "eq", s), row, true, lower, dbLower) <==> FoldsAlike(s, lower, dbLower)
  {
  }

  lemma {:induction false} SetFieldIsSeen(id: string, u: ScimPatch.User, path: string, s: string, repr: Json -> string)
    requires ScimPatch.NormalisePath(path) == LowerAscii(path)
    requires Resolve(USER_ATTRIBUTES, path).Ok? && LowerAscii(path) !in {"id", "active"}
    ensures var column := Resolve(USER_ATTRIBUTES, path).value;
            !column.isBoolean && At(RowOf(id, ScimPatch.SetField(u, path, JStr(s), repr)), column.name) == Varchar(s)
  {
    hide LowerAscii, ScimPatch.NormalisePath, ScimPatch.SetField, ScimPatch.FieldValue, RowOf;
    var key := LowerAscii(path);
    FilterSeesAttribute(id, ScimPatch.SetField(u, path, JStr(s), repr), key);
    OnlyActiveIsActive(key);
    ScimPatch.SetReadsBack(u, path, JStr(s), s, false, repr, ScimPatch.USER_FIELDS[key]);
  }

  lemma {:induction false} OnlyActiveIsActive(key: string)
    requires key in ScimPatch.USER_FIELDS
    ensures ScimPatch.USER_FIELDS[key] == ScimPatch.Active <==> key == "active"
  {
  }

  /**
   A text attribute set by PATCH is found by listing with an eq filter on that attribute when Python and
   the database lower-case the text alike, and, as no two users share a name, only then.
   */
  lemma {:induction false} PatchedUserIsFound(e: ScimStore.Env, db: ScimStore.Db, id: string, path: string, s: string, now: int,
                           count: Parameter, lower: char -> char, dbLower: char -> char)
    requires id in db.users && path != ""
    requires ScimStore.PatchUser(e, db, id, [ReplaceOp(path, s)], now).outcome.Ok?
    requires ScimPatch.NormalisePath(path) == LowerAscii(path)
    requires Resolve(USER_ATTRIBUTES, path).Ok? && LowerAscii(path) !in {"id", "active"}
    requires KeepsWildcards(lower) && Paginate(Absent, count).1 > 0
    ensures var after := ScimStore.PatchUser(e, db, id, [ReplaceOp(path, s)], now).db;
            var f := Compare(path, "eq", s);
            && Supported(USER_ATTRIBUTES, f) && id in after.users
            && after.users[id].userName in MeantNames(after.users, f, lower)
            && (FoldsAlike(s, lower, dbLower) ==> after.users[id].userName in Shown(after, f, count, lower, dbLower))
            && (ScimStore.Consistent(db) && after.users[id].userName in Shown(after, f, count, lower, dbLower) ==>
                  FoldsAlike(s, lower, dbLower))
  {
    hide LowerAscii, ScimPatch.NormalisePath, ScimStore.PatchUser, ScimStore.Consistent, Meaning, Certain, CertainNames, MeantNames,
         Shown, RowOf, FoldsAlike;
    var after := ScimStore.PatchUser(e, db, id, [ReplaceOp(path, s)], now).db;
    var f := Compare(path, "eq", s);
    ReplaceSets(e, db, id, path, s, now);
    SetFieldIsSeen(id, db.users[id], path, s, e.repr);
    OwnTextIsCertain(path, s, RowOf(id, after.users[id]), lower, dbLower);
    NameIsListed(after.users, f, id, lower, dbLower);
    if ScimStore.Consistent(db) {
      ScimStore.PatchUserConsistent(e, db, id, [ReplaceOp(path, s)], now);
      NameIsUser(after, f, id, lower, dbLower);
    }
    ListingTilesMeaning(after, f, count, lower, dbLower);
  }

  // --- listing without a filter, and by `active` ---------------------------------------------------------

  function AllNames(users: map<string, ScimPatch.User>): set<string> {
    set id | id in users :: users[id].userName
  }

  /** A blank filter lists every user; without paging parameters that is the first 200 names in order. */
  lemma {:induction false} UnfilteredListing(db: ScimStore.Db, blank: string, lower: char -> char, dbLower: char -> char)
    requires AllSpace(blank)
    ensures var rows := OrderedNames(AllNames(db.users));
            ListUsers(db, blank, Absent, Absent, lower, dbLower) ==
            Ok(if |rows| <= 200 then Page(|rows|, |rows|, 1, rows) else Page(|rows|, 200, 1, rows[..200]))
  {
    StripBlank(blank);
    assert Kept(db.users, None, dbLower) == AllNames(db.users);
    var rows := OrderedNames(AllNames(db.users));
    assert rows[0..|rows|] == rows;
  }

  /** A filter that does not build is an error, never an unfiltered listing. */
  lemma {:induction false} BadFilterRefused(db: ScimStore.Db, expression: string, startIndex: Parameter, count: Parameter,
                                            lower: char -> char, dbLower: char -> char)
    ensures ListUsers(db, expression, startIndex, count, lower, dbLower).Err? <==> FilterOf(USER_ATTRIBUTES, expression).Err?
    ensures FilterOf(USER_ATTRIBUTES, expression).Err? ==>
              ListUsers(db, expression, startIndex, count, lower, dbLower).error == FilterOf(USER_ATTRIBUTES, expression).error
  {
    hide FilterOf, Kept, OrderedNames;
  }

  /** What a value sent for a boolean stands for: "true" or "1", in any case and padding. */
  predicate SaysTrue(core: string) {
    LowerAscii(core) == "true" || core == "1"
  }

  /** eq and ne on `active` compare with that boolean; every other text stands for false. */
  lemma {:induction false} ActiveSelectedExactly(id: string, u: ScimPatch.User, path: string, before: string, core: string, after: string,
                                                 lower: char -> char, dbLower: char -> char)
    requires AllSpace(before) && AllSpace(after) && Trimmed(core) && LowerAscii(path) == "active"
    ensures var v := before + core + after;
            var eq, ne := Compare(path, "eq", v), Compare(path, "ne", v);
            && Supported(USER_ATTRIBUTES, eq) && Supported(USER_ATTRIBUTES, ne)
            && Eval(Compile(USER_ATTRIBUTES, eq, lower), RowOf(id, u), dbLower) == Known(u.active <==> SaysTrue(core))
            && Eval(Compile(USER_ATTRIBUTES, ne, lower), RowOf(id, u), dbLower) == Known(u.active <==> !SaysTrue(core))
            && (Certain(USER_ATTRIBUTES, eq, RowOf(id, u), true, lower, dbLower) <==> (u.active <==> SaysTrue(core)))
            && (Certain(USER_ATTRIBUTES, ne, RowOf(id, u), true, lower, dbLower) <==> (u.active <==> !SaysTrue(core)))
  {
    hide RowOf, USER_ATTRIBUTES, LowerAscii, Strip, TextReading, CoPattern, SwPattern, EwPattern, Like;
    StripGaps(before, core, after);
    LowerOne(core);
    ActiveColumn(path);
    ActiveCell(id, u);
  }

  lemma {:induction false} ActiveColumn(path: string)
    requires LowerAscii(path) == "active"
    ensures Resolve(USER_ATTRIBUTES, path) == Ok(Column("active", true))
  {
  }

  lemma {:induction false} ActiveCell(id: string, u: ScimPatch.User)
    ensures At(RowOf(id, u), "active") == Flag(u.active)
  {
  }

  lemma {:induction false} LowerOne(s: string)
    ensures LowerAscii(s) == "1" <==> s == "1"
  {
    if |s| == 1 {
      assert LowerAscii(s)[0] == LowerAsciiChar(s[0]);
    }
  }

  /** Listing by `active` shows exactly the users whose flag is the boolean asked for, or is not. */
  lemma {:induction false} ActiveListing(db: ScimStore.Db, op: string, before: string, core: string, after: string,
                                         startIndex: Parameter, count: Parameter, lower: char -> char, dbLower: char -> char)
    requires op in {"eq", "ne"} && KeepsWildcards(lower) && AllSpace(before) && AllSpace(after) && Trimmed(core)
    ensures var f := Compare("active", op, before + core + after);
            && Supported(USER_ATTRIBUTES, f) && Spellable(OrTokens(f))
            && ListUsers(db, Print(f), startIndex, count, lower, dbLower) ==
               Ok(List(OrderedNames(set id | id in db.users && (db.users[id].active <==> (SaysTrue(core) <==> op == "eq"))
                                          :: db.users[id].userName),
                       startIndex, count))
  {
    var f := Compare("active", op, before + core + after);
    hide Certain, RowOf, SaysTrue, Print, ListUsers, List, OrderedNames, Compile, Eval;
    assert LowerAscii("active") == "active";
    ActiveSelectedExactly("", ScimPatch.User("", None, "", "", "", "", true), "active", before, core, after, lower, dbLower);
    ListingIsCertain(db, f, startIndex, count, lower, dbLower);
    forall id | id in db.users
      ensures Certain(USER_ATTRIBUTES, f, RowOf(id, db.users[id]), true, lower, dbLower)
         <==> (db.users[id].active <==> (SaysTrue(core) <==> op == "eq"))
    {
      ActiveSelectedExactly(id, db.users[id], "active", before, core, after, lower, dbLower);
    }
    assert CertainNames(db.users, f, lower, dbLower)
        == set id | id in db.users && (db.users[id].active <==> (SaysTrue(core) <==> op == "eq")) :: db.users[id].userName;
  }
}
