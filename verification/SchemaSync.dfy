/** Adding the columns an existing database lacks (app/schema_sync.py). */
module SchemaSync {
  import opened Text

  datatype Cell = Null | TextCell(s: string) | NumberCell(text: string)

  /** A Python default value; lists and dictionaries come with their JSON text. */
  datatype PyValue = PyText(s: string) | PyNumber(text: string) | PyBool(b: bool) | PyJson(json: string) | PyOther

  /** A callable is given by what it returns; `Recalled` relates the models two runs see. */
  datatype Default = Scalar(value: PyValue) | Callable(value: PyValue) | ServerSide

  datatype ColumnDef = ColumnDef(name: string, nullable: bool, default: Option<Default>)

  datatype TableDef = TableDef(name: string, columns: seq<ColumnDef>)

  datatype Table = Table(columns: seq<string>, rows: seq<map<string, Cell>>)

  type Database = map<string, Table>

  /** What an UPDATE can bind for a value; None for one outside the fillable types. */
  function Bindable(v: PyValue): Option<Cell> {
    match v
    case PyText(s) => Some(TextCell(s))
    case PyNumber(t) => Some(NumberCell(t))
    case PyBool(b) => Some(NumberCell(if b then "1" else "0"))
    case PyJson(json) => Some(TextCell(json))
    case PyOther => None
  }

  /** `_default_value`: the cell existing rows get, or None when it cannot be reproduced. */
  function DefaultCell(c: ColumnDef): Option<Cell> {
    match c.default
    case None => if c.nullable then Some(Null) else None
    case Some(Scalar(v)) => Bindable(v)
    case Some(Callable(v)) => Bindable(v)
    case Some(ServerSide) => None
  }

  // --- single column steps --------------------------------------------------------------------

  /** One transaction: ALTER TABLE ... ADD COLUMN and the UPDATE that fills it. */
  datatype Addition = Addition(table: string, column: string, cell: Cell)

  function FillRow(row: map<string, Cell>, a: Addition): map<string, Cell> {
    row[a.column := a.cell]
  }

  function Fill(rows: seq<map<string, Cell>>, a: Addition): (r: seq<map<string, Cell>>)
    ensures |r| == |rows| && forall i :: 0 <= i < |rows| ==> r[i] == FillRow(rows[i], a)
  {
    seq(|rows|, i requires 0 <= i < |rows| => FillRow(rows[i], a))
  }

  function Add(db: Database, a: Addition): Database {
    if a.table !in db then db
    else db[a.table := Table(db[a.table].columns + [a.column], Fill(db[a.table].rows, a))]
  }

  function AddAll(db: Database, steps: seq<Addition>): Database
    decreases |steps|
  {
    if steps == [] then db else AddAll(Add(db, steps[0]), steps[1..])
  }

  function Missing(table: string, columns: seq<ColumnDef>, present: seq<string>): seq<Addition> {
    if columns == [] then []
    else
      var c := columns[0];
      (if c.name !in present && DefaultCell(c).Some? then [Addition(table, c.name, DefaultCell(c).value)] else [])
      + Missing(table, columns[1..], present)
  }

  function TablePlan(db: Database, t: TableDef): seq<Addition> {
    if t.name !in db then [] else Missing(t.name, t.columns, db[t.name].columns)
  }

  /** Every step a run on this database takes, in order. */
  function Plan(db: Database, models: seq<TableDef>): seq<Addition> {
    if models == [] then [] else TablePlan(db, models[0]) + Plan(db, models[1..])
  }

  function Names(steps: seq<Addition>): (r: seq<string>)
    ensures |r| == |steps|
    ensures forall i :: 0 <= i < |steps| ==> r[i] == steps[i].table + "." + steps[i].column
  {
    seq(|steps|, i requires 0 <= i < |steps| => steps[i].table + "." + steps[i].column)
  }

  /** Model metadata never repeats a table or, in a table, a column. */
  predicate Distinct(models: seq<TableDef>) {
    && (forall i, j :: 0 <= i < j < |models| ==> models[i].name != models[j].name)
    && (forall i :: 0 <= i < |models| ==> DistinctColumns(models[i].columns))
  }

  predicate DistinctColumns(columns: seq<ColumnDef>) {
    forall i, j :: 0 <= i < j < |columns| ==> columns[i].name != columns[j].name
  }

  // --- the run ------------------------------------------------------------------------------------

  class Engine {
    var db: Database

    constructor (db: Database)
      ensures this.db == db
    {
      this.db := db;
    }

    method SyncSchema(models: seq<TableDef>) returns (added: seq<string>)
      requires Distinct(models)
      modifies this
      ensures db == AddAll(old(db), Plan(old(db), models))
      ensures added == Names(Plan(old(db), models))
    {
      added := [];
      ghost var done: seq<Addition> := [];
      assert models[0..] == models;
      var existing := db.Keys;
      for n := 0 to |models|
        invariant db.Keys == existing
        invariant Plan(old(db), models) == done + Plan(db, models[n..])
        invariant db == AddAll(old(db), done) && added == Names(done)
      {
        var t := models[n];
        ghost var rest := models[n + 1..];
        assert models[n..] == [t] + rest;
        TableTurn(db, t, rest, done);
        ghost var here := TablePlan(db, t);
        AddAllConcat(old(db), done, here);
        NamesConcat(done, here);
        if t.name in existing {
          var names := SyncTable(t);
          added := added + names;
        }
        done := done + here;
      }
      assert done + [] == done;
    }

    /** The columns of one table, against those it had when its turn came. */
    method SyncTable(t: TableDef) returns (added: seq<string>)
      requires t.name in db
      modifies this
      ensures db == AddAll(old(db), TablePlan(old(db), t)) && db.Keys == old(db).Keys
      ensures added == Names(TablePlan(old(db), t))
    {
      hide Missing, AddAll, Add, DefaultCell;
      added := [];
      var present := db[t.name].columns;
      ghost var done: seq<Addition> := [];
      assert t.columns[..0] == [];
      NoSteps(db, t.name, present);
      for i := 0 to |t.columns|
        invariant done == Missing(t.name, t.columns[..i], present)
        invariant db == AddAll(old(db), done) && added == Names(done)
      {
        var c := t.columns[i];
        assert t.columns[..i + 1] == t.columns[..i] + [c];
        MissingAppend(t.name, t.columns[..i], c, present);
        if c.name !in present {
          var cell := DefaultCell(c);
          if cell.Some? {
            var step := Addition(t.name, c.name, cell.value);
            AddAllAppend(old(db), done, step);
            NamesAppend(done, step);
            db := Add(db, step);
            added := added + [t.name + "." + c.name];
            done := done + [step];
          }
        }
      }
      assert t.columns[..|t.columns|] == t.columns;
      KeysKept(old(db), done);
    }
  }

  lemma {:induction false} NoSteps(db: Database, table: string, present: seq<string>)
    ensures Missing(table, [], present) == [] && AddAll(db, []) == db && Names([]) == []
  {
  }

  lemma {:induction false} KeysKept(db: Database, steps: seq<Addition>)
    ensures AddAll(db, steps).Keys == db.Keys
    decreases |steps|
  {
    if steps != [] { KeysKept(Add(db, steps[0]), steps[1..]); }
  }

  lemma {:induction false} MissingAppend(table: string, columns: seq<ColumnDef>, c: ColumnDef, present: seq<string>)
    ensures Missing(table, columns + [c], present) ==
            if c.name !in present && DefaultCell(c).Some?
            then Missing(table, columns, present) + [Addition(table, c.name, DefaultCell(c).value)]
            else Missing(table, columns, present)
  {
    if columns == [] {
      assert ([] + [c])[1..] == [];
    } else {
      assert (columns + [c])[1..] == columns[1..] + [c];
      MissingAppend(table, columns[1..], c, present);
    }
  }

  /** Taking one table's steps leaves the plan of the tables after it as it was. */
  lemma {:induction false} TableTurn(db: Database, t: TableDef, rest: seq<TableDef>, done: seq<Addition>)
    requires forall i :: 0 <= i < |rest| ==> rest[i].name != t.name
    ensures done + Plan(db, [t] + rest) == (done + TablePlan(db, t)) + Plan(AddAll(db, TablePlan(db, t)), rest)
  {
    var here := TablePlan(db, t);
    HerePlanTable(db, t);
    PlanIgnoresAll(db, here, t.name, rest);
    PlanCons(db, t, rest);
    Reassociate(done, here, Plan(db, rest));
  }

  lemma {:induction false} Reassociate(a: seq<Addition>, b: seq<Addition>, c: seq<Addition>)
    ensures a + (b + c) == (a + b) + c
  {
  }

  lemma {:induction false} PlanCons(db: Database, t: TableDef, rest: seq<TableDef>)
    ensures Plan(db, [t] + rest) == TablePlan(db, t) + Plan(db, rest)
  {
    assert ([t] + rest)[1..] == rest;
  }

  lemma {:induction false} NamesAppend(a: seq<Addition>, step: Addition)
    ensures Names(a + [step]) == Names(a) + [step.table + "." + step.column]
  {
  }

  lemma {:induction false} NamesConcat(a: seq<Addition>, b: seq<Addition>)
    ensures Names(a) + Names(b) == Names(a + b)
  {
  }

  lemma {:induction false} MissingOwnTable(table: string, columns: seq<ColumnDef>, present: seq<string>)
    ensures forall a :: a in Missing(table, columns, present) ==> a.table == table
  {
    if columns != [] { MissingOwnTable(table, columns[1..], present); }
  }

  lemma {:induction false} HerePlanTable(db: Database, t: TableDef)
    ensures forall a :: a in TablePlan(db, t) ==> a.table == t.name
  {
    if t.name in db { MissingOwnTable(t.name, t.columns, db[t.name].columns); }
  }

  lemma {:induction false} PlanIgnoresAll(db: Database, steps: seq<Addition>, table: string, rest: seq<TableDef>)
    requires forall a :: a in steps ==> a.table == table
    requires forall i :: 0 <= i < |rest| ==> rest[i].name != table
    ensures Plan(AddAll(db, steps), rest) == Plan(db, rest)
    decreases |steps|
  {
    if steps != [] {
      PlanIgnores(db, steps[0], rest);
      PlanIgnoresAll(Add(db, steps[0]), steps[1..], table, rest);
    }
  }

  lemma {:induction false} AddAllConcat(db: Database, a: seq<Addition>, b: seq<Addition>)
    ensures AddAll(db, a + b) == AddAll(AddAll(db, a), b)
  {
    AddAllSplit(db, a + b, |a|);
    assert (a + b)[..|a|] == a && (a + b)[|a|..] == b;
  }

  lemma {:induction false} AddAllAppend(db: Database, steps: seq<Addition>, last: Addition)
    ensures AddAll(db, steps + [last]) == Add(AddAll(db, steps), last)
    decreases |steps|
  {
    if steps == [] {
      assert ([] + [last])[1..] == [];
    } else {
      assert (steps + [last])[1..] == steps[1..] + [last];
      AddAllAppend(Add(db, steps[0]), steps[1..], last);
    }
  }

  lemma {:induction false} PlanIgnores(db: Database, step: Addition, rest: seq<TableDef>)
    requires forall i :: 0 <= i < |rest| ==> rest[i].name != step.table
    ensures Plan(Add(db, step), rest) == Plan(db, rest)
  {
    if rest != [] { PlanIgnores(db, step, rest[1..]); }
  }

  // --- existing data is never changed -----------------------------------------------------------------

  /** Same tables and rows; every old column keeps every cell. */
  predicate Extends(after: Database, before: Database) {
    && after.Keys == before.Keys
    && forall t :: t in before ==>
         && before[t].columns <= after[t].columns
         && |after[t].rows| == |before[t].rows|
         && forall i, c :: 0 <= i < |before[t].rows| && c in before[t].rows[i] && c in before[t].columns ==>
              c in after[t].rows[i] && after[t].rows[i][c] == before[t].rows[i][c]
  }

  predicate AddsNewColumns(db: Database, steps: seq<Addition>)
    decreases |steps|
  {
    steps == [] || ((steps[0].table in db ==> steps[0].column !in db[steps[0].table].columns) && AddsNewColumns(Add(db, steps[0]), steps[1..]))
  }

  lemma {:induction false} ExtendsTransitive(a: Database, b: Database, c: Database)
    requires Extends(b, a) && Extends(c, b)
    ensures Extends(c, a)
  {
    forall t | t in a
      ensures a[t].columns <= c[t].columns && |c[t].rows| == |a[t].rows|
      ensures forall i, k :: 0 <= i < |a[t].rows| && k in a[t].rows[i] && k in a[t].columns ==>
                k in c[t].rows[i] && c[t].rows[i][k] == a[t].rows[i][k]
    {
      assert a[t].columns <= b[t].columns <= c[t].columns;
      assert forall k :: k in a[t].columns ==> k in b[t].columns;
    }
  }

  lemma {:induction false} NewColumnsExtend(db: Database, steps: seq<Addition>)
    requires AddsNewColumns(db, steps)
    ensures Extends(AddAll(db, steps), db)
    decreases |steps|
  {
    if steps != [] {
      var next := Add(db, steps[0]);
      assert Extends(next, db);
      NewColumnsExtend(next, steps[1..]);
      ExtendsTransitive(db, next, AddAll(db, steps));
    }
  }

  // --- one step shortens the plan ------------------------------------------------------------------------

  lemma {:induction false} MissingIgnores(table: string, columns: seq<ColumnDef>, present: seq<string>, name: string)
    requires forall i :: 0 <= i < |columns| ==> columns[i].name != name
    ensures Missing(table, columns, present + [name]) == Missing(table, columns, present)
  {
    if columns != [] { MissingIgnores(table, columns[1..], present, name); }
  }

  lemma {:induction false} MissingShrinks(table: string, columns: seq<ColumnDef>, present: seq<string>)
    requires DistinctColumns(columns) && Missing(table, columns, present) != []
    ensures var all := Missing(table, columns, present);
            && all[0].table == table && all[0].column !in present
            && Missing(table, columns, present + [all[0].column]) == all[1..]
  {
    var c, rest := columns[0], columns[1..];
    var all := Missing(table, columns, present);
    if c.name !in present && DefaultCell(c).Some? {
      MissingIgnores(table, rest, present, c.name);
      assert all[1..] == Missing(table, rest, present);
    } else {
      MissingShrinks(table, rest, present);
    }
  }

  /** Taking the first step of a plan leaves the rest of it. */
  predicate Shrinks(db: Database, models: seq<TableDef>) {
    var plan := Plan(db, models);
    && plan != []
    && plan[0].table in db && plan[0].column !in db[plan[0].table].columns
    && Plan(Add(db, plan[0]), models) == plan[1..]
    && plan[0].table in ModelNames(models)
  }

  function ModelNames(models: seq<TableDef>): set<string> {
    set t | t in models :: t.name
  }

  lemma {:induction false} HeadOfConcat(here: seq<Addition>, later: seq<Addition>)
    requires here != []
    ensures (here + later)[0] == here[0] && (here + later)[1..] == here[1..] + later
  {
  }

  lemma {:induction false} ShrinksHere(db: Database, t: TableDef, rest: seq<TableDef>)
    requires DistinctColumns(t.columns) && TablePlan(db, t) != []
    requires forall i :: 0 <= i < |rest| ==> rest[i].name != t.name
    ensures Shrinks(db, [t] + rest)
  {
    hide TablePlan, Plan, Add, DistinctColumns;
    var here, later := TablePlan(db, t), Plan(db, rest);
    TablePlanShrinks(db, t);
    PlanIgnores(db, here[0], rest);
    PlanCons(db, t, rest);
    PlanCons(Add(db, here[0]), t, rest);
    HeadOfConcat(here, later);
    assert t in [t] + rest;
  }

  lemma {:induction false} ShrinksLater(db: Database, t: TableDef, rest: seq<TableDef>)
    requires TablePlan(db, t) == [] && t.name !in ModelNames(rest) && Shrinks(db, rest)
    ensures Shrinks(db, [t] + rest)
  {
    hide TablePlan, Plan, Add;
    var later := Plan(db, rest);
    OtherTableUntouched(db, later[0], t);
    PlanCons(db, t, rest);
    PlanCons(Add(db, later[0]), t, rest);
    assert [] + later == later && [] + later[1..] == later[1..];
    var u :| u in rest && u.name == later[0].table;
    assert u in [t] + rest;
  }

  lemma {:induction false} PlanShrinks(db: Database, models: seq<TableDef>)
    requires Distinct(models) && Plan(db, models) != []
    ensures Shrinks(db, models)
  {
    var t, rest := models[0], models[1..];
    assert models == [t] + rest;
    if TablePlan(db, t) != [] {
      ShrinksHere(db, t, rest);
    } else {
      PlanCons(db, t, rest);
      assert Plan(db, rest) != [];
      PlanShrinks(db, rest);
      ShrinksLater(db, t, rest);
    }
  }

  lemma {:induction false} OtherTableUntouched(db: Database, a: Addition, t: TableDef)
    requires a.table != t.name
    ensures TablePlan(Add(db, a), t) == TablePlan(db, t)
  {
  }

  lemma {:induction false} TablePlanShrinks(db: Database, t: TableDef)
    requires DistinctColumns(t.columns) && TablePlan(db, t) != []
    ensures var plan := TablePlan(db, t);
            && plan[0].table == t.name && t.name in db && plan[0].column !in db[t.name].columns
            && TablePlan(Add(db, plan[0]), t) == plan[1..]
  {
    MissingShrinks(t.name, t.columns, db[t.name].columns);
  }

  /** After any number of whole column steps, what is left to do is the rest of the plan. */
  lemma {:induction false} PlanAfter(db: Database, models: seq<TableDef>, n: nat)
    requires Distinct(models) && n <= |Plan(db, models)|
    ensures var plan := Plan(db, models);
            && Plan(AddAll(db, plan[..n]), models) == plan[n..]
            && AddsNewColumns(db, plan[..n])
    decreases n
  {
    var plan := Plan(db, models);
    if n > 0 {
      PlanShrinks(db, models);
      var next := Add(db, plan[0]);
      PlanAfter(next, models, n - 1);
      assert plan[..n][1..] == plan[1..][..n - 1] && plan[1..][n - 1..] == plan[n..];
    } else {
      assert plan[..0] == [];
    }
  }

  lemma {:induction false} AddAllSplit(db: Database, steps: seq<Addition>, n: nat)
    requires n <= |steps|
    ensures AddAll(db, steps) == AddAll(AddAll(db, steps[..n]), steps[n..])
    decreases n
  {
    if n > 0 {
      assert steps[..n][1..] == steps[1..][..n - 1] && steps[1..][n - 1..] == steps[n..];
      AddAllSplit(Add(db, steps[0]), steps[1..], n - 1);
    }
  }

  // --- the promises -----------------------------------------------------------------------------------------

  function Synced(db: Database, models: seq<TableDef>): Database {
    AddAll(db, Plan(db, models))
  }

  /** The models as a later run evaluates them: callables may return something else, of a kind as usable. */
  predicate Recalled(models: seq<TableDef>, again: seq<TableDef>) {
    && |again| == |models|
    && forall i :: 0 <= i < |models| ==>
         again[i].name == models[i].name && RecalledColumns(models[i].columns, again[i].columns)
  }

  predicate RecalledColumns(columns: seq<ColumnDef>, again: seq<ColumnDef>) {
    && |again| == |columns|
    && forall i :: 0 <= i < |columns| ==>
         again[i].name == columns[i].name && (DefaultCell(again[i]).Some? <==> DefaultCell(columns[i]).Some?)
  }

  /** Every default comes out the same both times. */
  predicate SameDefaults(models: seq<TableDef>, again: seq<TableDef>)
    requires Recalled(models, again)
  {
    forall i, j :: 0 <= i < |models| && 0 <= j < |models[i].columns| ==>
      DefaultCell(again[i].columns[j]) == DefaultCell(models[i].columns[j])
  }

  /** The same columns in the same order, whatever fills them. */
  predicate Alike(a: seq<Addition>, b: seq<Addition>) {
    |a| == |b| && forall i :: 0 <= i < |a| ==> a[i].table == b[i].table && a[i].column == b[i].column
  }

  predicate SameShape(a: Database, b: Database) {
    a.Keys == b.Keys && forall t :: t in a ==> a[t].columns == b[t].columns && |a[t].rows| == |b[t].rows|
  }

  lemma {:induction false} MissingAlike(table: string, columns: seq<ColumnDef>, again: seq<ColumnDef>, present: seq<string>)
    requires RecalledColumns(columns, again)
    ensures Alike(Missing(table, again, present), Missing(table, columns, present))
  {
    if columns != [] {
      MissingAlike(table, columns[1..], again[1..], present);
    }
  }

  lemma {:induction false} MissingSame(table: string, columns: seq<ColumnDef>, again: seq<ColumnDef>, present: seq<string>)
    requires RecalledColumns(columns, again)
    requires forall j :: 0 <= j < |columns| ==> DefaultCell(again[j]) == DefaultCell(columns[j])
    ensures Missing(table, again, present) == Missing(table, columns, present)
  {
    if columns != [] {
      MissingSame(table, columns[1..], again[1..], present);
    }
  }

  lemma {:induction false} AlikeConcat(a: seq<Addition>, b: seq<Addition>, c: seq<Addition>, d: seq<Addition>)
    requires Alike(a, c) && Alike(b, d)
    ensures Alike(a + b, c + d)
  {
  }

  lemma {:induction false} PlanAlike(db: Database, models: seq<TableDef>, again: seq<TableDef>)
    requires Recalled(models, again)
    ensures Alike(Plan(db, again), Plan(db, models))
  {
    if models != [] {
      var t, u := models[0], again[0];
      PlanAlike(db, models[1..], again[1..]);
      if t.name in db { MissingAlike(t.name, t.columns, u.columns, db[t.name].columns); }
      AlikeConcat(TablePlan(db, u), Plan(db, again[1..]), TablePlan(db, t), Plan(db, models[1..]));
    }
  }

  lemma {:induction false} PlanSame(db: Database, models: seq<TableDef>, again: seq<TableDef>)
    requires Recalled(models, again) && SameDefaults(models, again)
    ensures Plan(db, again) == Plan(db, models)
  {
    if models != [] {
      var t, u := models[0], again[0];
      PlanSame(db, models[1..], again[1..]);
      if t.name in db { MissingSame(t.name, t.columns, u.columns, db[t.name].columns); }
    }
  }

  lemma {:induction false} AddAlike(x: Database, y: Database, a: Addition, b: Addition)
    requires SameShape(x, y) && a.table == b.table && a.column == b.column
    ensures SameShape(Add(x, a), Add(y, b))
  {
  }

  lemma {:induction false} AddAllAlike(x: Database, y: Database, a: seq<Addition>, b: seq<Addition>)
    requires SameShape(x, y) && Alike(a, b)
    ensures SameShape(AddAll(x, a), AddAll(y, b))
    decreases |a|
  {
    if a != [] {
      AddAlike(x, y, a[0], b[0]);
      AddAllAlike(Add(x, a[0]), Add(y, b[0]), a[1..], b[1..]);
    }
  }

  lemma {:induction false} RecalledDistinct(models: seq<TableDef>, again: seq<TableDef>)
    requires Distinct(models) && Recalled(models, again)
    ensures Distinct(again)
  {
    forall i | 0 <= i < |again| ensures DistinctColumns(again[i].columns) {
      assert DistinctColumns(models[i].columns);
    }
  }

  /**
   Stopping after any number of column steps and starting again leaves nothing to do and the tables,
   columns and rows of one whole run; and the very same database, if callables return the same again.
   */
  lemma {:induction false} InterruptedRunConverges(db: Database, models: seq<TableDef>, again: seq<TableDef>, n: nat)
    requires Distinct(models) && Recalled(models, again) && n <= |Plan(db, models)|
    ensures var resumed := Synced(AddAll(db, Plan(db, models)[..n]), again);
            && Plan(resumed, again) == []
            && SameShape(resumed, Synced(db, models))
            && (SameDefaults(models, again) ==> resumed == Synced(db, models))
  {
    var plan := Plan(db, models);
    var stopped := AddAll(db, plan[..n]);
    PlanAfter(db, models, n);
    AddAllSplit(db, plan, n);
    PlanAlike(stopped, models, again);
    AddAllAlike(stopped, stopped, Plan(stopped, again), plan[n..]);
    RecalledDistinct(models, again);
    SecondRunAddsNothing(stopped, again, again);
    if SameDefaults(models, again) { PlanSame(stopped, models, again); }
  }

  /** A second run finds nothing to add, whatever its callables return. */
  lemma {:induction false} SecondRunAddsNothing(db: Database, models: seq<TableDef>, again: seq<TableDef>)
    requires Distinct(models) && Recalled(models, again)
    ensures Plan(Synced(db, models), again) == []
  {
    var plan := Plan(db, models);
    PlanAfter(db, models, |plan|);
    assert plan[..|plan|] == plan && plan[|plan|..] == [];
    PlanAlike(Synced(db, models), models, again);
  }

  /** No run changes an existing table's rows, columns or cells. */
  lemma {:induction false} ExistingCellsKept(db: Database, models: seq<TableDef>)
    requires Distinct(models)
    ensures Extends(Synced(db, models), db)
  {
    var plan := Plan(db, models);
    PlanAfter(db, models, |plan|);
    assert plan[..|plan|] == plan;
    NewColumnsExtend(db, plan);
  }

  lemma {:induction false} MissingExactly(table: string, columns: seq<ColumnDef>, present: seq<string>, a: Addition)
    ensures a in Missing(table, columns, present) <==>
            a.table == table && a.column !in present
            && exists c :: c in columns && c.name == a.column && DefaultCell(c) == Some(a.cell)
  {
    if columns != [] {
      MissingExactly(table, columns[1..], present, a);
      if c :| c in columns && c.name == a.column && DefaultCell(c) == Some(a.cell) {
        assert c == columns[0] || c in columns[1..];
      }
    }
  }

  /** The plan is exactly the model columns missing from existing tables whose default can be reproduced. */
  lemma {:induction false} PlanExactly(db: Database, models: seq<TableDef>, a: Addition)
    ensures a in Plan(db, models) <==>
            a.table in db && a.column !in db[a.table].columns
            && exists t, c :: t in models && t.name == a.table && c in t.columns && c.name == a.column
                              && DefaultCell(c) == Some(a.cell)
  {
    if models != [] {
      var t := models[0];
      PlanExactly(db, models[1..], a);
      if t.name in db { MissingExactly(t.name, t.columns, db[t.name].columns, a); }
      if u, c :| u in models && u.name == a.table && c in u.columns && c.name == a.column && DefaultCell(c) == Some(a.cell) {
        assert u == t || u in models[1..];
      }
    }
  }

  // --- what a new column holds ----------------------------------------------------------------------------

  /** The cell a default gives: NULL for an optional column, text and numbers as they are, booleans as 0 or 1, JSON as text. */
  lemma {:induction false} DefaultCells(name: string, nullable: bool, s: string)
    ensures DefaultCell(ColumnDef(name, true, None)) == Some(Null) && DefaultCell(ColumnDef(name, false, None)) == None
    ensures forall call :: call in {Scalar(PyText(s)), Callable(PyText(s))} ==> DefaultCell(ColumnDef(name, nullable, Some(call))) == Some(TextCell(s))
    ensures forall call :: call in {Scalar(PyNumber(s)), Callable(PyNumber(s))} ==> DefaultCell(ColumnDef(name, nullable, Some(call))) == Some(NumberCell(s))
    ensures forall call :: call in {Scalar(PyJson(s)), Callable(PyJson(s))} ==> DefaultCell(ColumnDef(name, nullable, Some(call))) == Some(TextCell(s))
    ensures DefaultCell(ColumnDef(name, nullable, Some(Scalar(PyBool(true))))) == Some(NumberCell("1"))
    ensures DefaultCell(ColumnDef(name, nullable, Some(Scalar(PyBool(false))))) == Some(NumberCell("0"))
    ensures forall call :: call in {Scalar(PyOther), Callable(PyOther), ServerSide} ==> DefaultCell(ColumnDef(name, nullable, Some(call))) == None
  {
  }

  /** After a run every existing row holds the default in every column that was missing and has one. */
  lemma {:induction false} NewColumnsFilled(db: Database, models: seq<TableDef>, t: TableDef, c: ColumnDef)
    requires Distinct(models) && t in models && t.name in db && c in t.columns
    requires c.name !in db[t.name].columns && DefaultCell(c).Some?
    ensures var after := Synced(db, models);
            && t.name in after && c.name in after[t.name].columns && |after[t.name].rows| == |db[t.name].rows|
            && forall i :: 0 <= i < |after[t.name].rows| ==>
                 c.name in after[t.name].rows[i] && after[t.name].rows[i][c.name] == DefaultCell(c).value
  {
    var plan, a := Plan(db, models), Addition(t.name, c.name, DefaultCell(c).value);
    PlanExactly(db, models, a);
    PlanAfter(db, models, |plan|);
    assert plan[..|plan|] == plan;
    StepFills(db, plan, a);
  }

  lemma {:induction false} StepFills(db: Database, steps: seq<Addition>, a: Addition)
    requires AddsNewColumns(db, steps) && a in steps && a.table in db
    ensures var after := AddAll(db, steps);
            && a.table in after && a.column in after[a.table].columns && |after[a.table].rows| == |db[a.table].rows|
            && forall i :: 0 <= i < |after[a.table].rows| ==>
                 a.column in after[a.table].rows[i] && after[a.table].rows[i][a.column] == a.cell
    decreases |steps|
  {
    var next := Add(db, steps[0]);
    if steps[0] == a {
      NewColumnsExtend(next, steps[1..]);
      ColumnKept(next, AddAll(next, steps[1..]), a);
    } else {
      assert a in steps[1..];
      StepFills(next, steps[1..], a);
    }
  }

  lemma {:induction false} ColumnKept(before: Database, after: Database, a: Addition)
    requires Extends(after, before) && a.table in before && a.column in before[a.table].columns
    requires forall i :: 0 <= i < |before[a.table].rows| ==>
               a.column in before[a.table].rows[i] && before[a.table].rows[i][a.column] == a.cell
    ensures a.column in after[a.table].columns && |after[a.table].rows| == |before[a.table].rows|
    ensures forall i :: 0 <= i < |after[a.table].rows| ==> a.column in after[a.table].rows[i] && after[a.table].rows[i][a.column] == a.cell
  {
    assert a.column in before[a.table].columns ==> a.column in after[a.table].columns;
  }
}
