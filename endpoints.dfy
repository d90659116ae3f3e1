/** The generic table handlers of server.js (`/api/get-data`, `/api/search-data`,
    `/api/get-record`, `/api/update-data`, `/api/delete-data`, `/api/add-data`) as
    operations on one database whose tables they read and change. */
module Endpoints {
  import opened Js
  import opened Registry
  import opened Store
  import opened Http
  import opened Validation
  import opened Search
  import opened Update
  import opened Insert
  import opened Text

  /** A query-string parameter: absent, or the text it was given. */
  function QueryValue(q: Option<string>): (v: JsValue)
    ensures Truthy(v) <==> q.Some? && q.value != ""
  {
    if q.None? then Undefined else Str(q.value)
  }

  /** `requireAuth` followed by the handler's `if (!a || !b ...)` check. */
  function Guard(header: Option<string>, tokenAccepted: bool, required: seq<JsValue>, message: string)
    : (rejection: Option<Response>)
    ensures rejection.None? <==> RequireAuth(header, tokenAccepted).None? && !MissingRequired(required)
    ensures rejection.Some? && RequireAuth(header, tokenAccepted).Some? ==> rejection.value.status == 401
    ensures rejection.Some? && RequireAuth(header, tokenAccepted).None? ==> rejection.value == Error(400, message)
  {
    match RequireAuth(header, tokenAccepted)
    case Some(r) => Some(r)
    case None => if MissingRequired(required) then Some(Error(400, message)) else None
  }

  /** The 404 message of each case of delete-data's `switch`. */
  function NotFoundMessage(t: Table): string
  {
    match t
    case Customers => "Customer not found"
    case Resturants => "Restaurant not found"
    case MenuItems => "Menu item not found"
    case Orders => "Order not found"
    case OrderDetails => "Order detail not found"
    case DeliveryStaff => "Delivery staff not found"
    case Deliveries => "Delivery not found"
    case Payments => "Payment not found"
  }

  /** The answer delete-data sends for a transaction outcome. */
  function DeleteResponse(t: Table, o: Outcome): Response
  {
    match o
    case Committed(_) => Response(200, Success("Record deleted successfully"))
    case NotFound => Error(404, NotFoundMessage(t))
    case Failed => Error(500, "Failed to delete record")
  }

  // ----- The table name as delete-data dispatches on it, as written

  /** Where `if (!tableNameMap[table])` followed by `switch (table)` sends a request. */
  datatype Dispatch = Refused | Cascade(t: Table) | NoCase

  function DeleteDispatchAsWritten(table: JsValue): Dispatch
  {
    if !ExactGuardPassesAsWritten(table) then Refused
    else match ResolveExact(table)
      case Some(t) => Cascade(t)
      case None => NoCase
  }

  /** A request that reaches no case of the `switch` runs only the COMMIT (statement 0). */
  function NoCaseResponse(fault: Option<nat>): Response
  {
    if fault == Some(0) then Error(500, "Failed to delete record")
    else Response(200, Success("Record deleted successfully"))
  }

  /** As written, `table: "constructor"` passes the guard, matches no case of the `switch`,
      deletes nothing and is answered with success. */
  lemma PrototypeNameDeletesNothing()
    ensures DeleteDispatchAsWritten(Str("constructor")) == NoCase
    ensures NoCaseResponse(None) == Response(200, Success("Record deleted successfully"))
  {
    PrototypeNameGetsPastGuards();
  }

  /** The guard as written and the resolution the handlers below use agree on every name
      that is not a member of `Object.prototype`. */
  lemma DispatchAgreesOffPrototype(table: JsValue)
    requires !(table.Str? && table.s in ObjectPrototypeMembers)
    ensures DeleteDispatchAsWritten(table)
      == if ResolveExact(table).Some? then Cascade(ResolveExact(table).value) else Refused
  {
    if table.Str? {
      GuardsAsWrittenAdmit(table.s);
    }
  }

  // ----- An id as mysql2's `query` writes it into the statement, as written

  /** The text `connection.query` puts in place of the `?` of `WHERE <id column> = ?`: a
      scalar as a value; an object as its `` `key` = value `` pairs joined by commas (a
      nested object becomes the string `'[object Object]'`), so that one pair makes the
      clause `(<id column> = key) = value`, and none or several make it no SQL. */
  datatype IdText = Scalar(key: Option<int>) | Comparison(column: string, value: Option<int>) | NoSql

  function IdTextAsWritten(id: JsValue): IdText
  {
    match id
    case Obj(entries) => if |entries| == 1 then Comparison(entries[0].0, SqlKey(entries[0].1)) else NoSql
    case _ => Scalar(SqlKey(id))
  }

  /** `(<id column> = col) = v` on row `k`: the inner comparison is 1 or 0, or NULL, which
      selects nothing, when `col` holds no integer. */
  predicate ComparisonHolds(k: int, row: Row, idColumn: string, col: string, v: Option<int>)
  {
    v.Some?
    && if col == idColumn then v.value == 1
       else col in row && row[col].IntVal? && v.value == (if row[col].i == k then 1 else 0)
  }

  /** The keys of `t` that `WHERE <id column> = ?` selects as written, for the body `id` of
      update-data (`ExecUpdateAsWritten`) and of delete-data on a table without dependents
      (`LeafDeleteAsWritten`); `None` when the text is no SQL or names a column `t` does
      not have. */
  function KeyMatchesAsWritten(s: Tables, t: Table, id: JsValue): (r: Option<set<int>>)
    requires Complete(s)
    ensures r.Some? ==> r.value <= s[t].Keys
    ensures !id.Obj? ==> r.Some? && forall k :: k in r.value ==> SqlKey(id) == Some(k)
    ensures id.Obj? && |id.entries| != 1 ==> r.None?
  {
    match IdTextAsWritten(id)
    case NoSql => None
    case Scalar(k) => Some(if k.Some? && k.value in s[t] then {k.value} else {})
    case Comparison(c, v) =>
      match ColumnNamed(Columns(t), c)
      case None => None
      case Some(col) => Some(ComparisonMatches(s[t], IdColumn(t), col, v))
  }

  /** The keys of the rows on which `(<id column> = col) = v` holds. */
  function ComparisonMatches(rows: map<int, Row>, idColumn: string, col: string, v: Option<int>): set<int>
  {
    set k | k in rows && ComparisonHolds(k, rows[k], idColumn, col, v)
  }

  /** The order-details, deliveries and payments cases of delete-data as written: one DELETE
      by id, which no foreign key restricts (no table refers to these three), then the
      404 check on `affectedRows` and the COMMIT. */
  function LeafDeleteAsWritten(s: Tables, t: Table, id: JsValue): (Response, Tables)
    requires Complete(s) && t in {OrderDetails, Deliveries, Payments}
  {
    match KeyMatchesAsWritten(s, t, id)
    case None => (Error(500, "Failed to delete record"), s)
    case Some(matched) =>
      if matched == {} then (Error(404, NotFoundMessage(t)), s)
      else (Response(200, Success("Record deleted successfully")),
            s[t := RowsOutside(s[t], matched)])
  }

  /** The rows whose keys are not in `keys`. */
  function RowsOutside(rows: map<int, Row>, keys: set<int>): (r: map<int, Row>)
    ensures r.Keys == rows.Keys - keys
    ensures forall k :: k in r ==> r[k] == rows[k]
  {
    map k | k in rows && k !in keys :: rows[k]
  }

  /** As written, the id `{"<id column>": 1}` turns `WHERE <id column> = ?` into
      `(<id column> = <id column>) = 1`, which every row satisfies: delete-data empties a
      leaf table and answers with success. */
  lemma ObjectIdMatchesEveryRow(s: Tables, t: Table)
    requires Complete(s)
    ensures KeyMatchesAsWritten(s, t, Obj([(IdColumn(t), Num(1))])) == Some(s[t].Keys)
    ensures t in {OrderDetails, Deliveries, Payments} && s[t] != map[] ==>
      LeafDeleteAsWritten(s, t, Obj([(IdColumn(t), Num(1))]))
        == (Response(200, Success("Record deleted successfully")), s[t := map[]])
  {
    SelfComparisonMatchesEveryKey(s, t);
    assert RowsOutside(s[t], s[t].Keys) == map[];
  }

  lemma SelfComparisonMatchesEveryKey(s: Tables, t: Table)
    requires Complete(s)
    ensures KeyMatchesAsWritten(s, t, Obj([(IdColumn(t), Num(1))])) == Some(s[t].Keys)
  {
    var c := IdColumn(t);
    IdColumnNamesItself(t);
    OnePairIdText(c, Num(1));
    SelfComparisonHoldsEverywhere(s[t], c);
  }

  /** A one-pair object is written as a comparison with its key's column. */
  lemma OnePairIdText(c: string, v: JsValue)
    ensures IdTextAsWritten(Obj([(c, v)])) == Comparison(c, SqlKey(v))
    ensures v == Num(1) ==> SqlKey(v) == Some(1)
  {
  }

  /** `(c = c) = 1` holds on every row. */
  lemma SelfComparisonHoldsEverywhere(rows: map<int, Row>, c: string)
    ensures ComparisonMatches(rows, c, c, Some(1)) == rows.Keys
  {
  }

  /** The id column is found under its own name. */
  lemma IdColumnNamesItself(t: Table)
    ensures ColumnNamed(Columns(t), IdColumn(t)) == Some(IdColumn(t))
  {
    SchemaAgreesWithRegistry(t);
  }

  /** With the id bound as the model binds it, an object id changes nothing: the delete
      transaction does not commit, and the update statement fails. */
  lemma ObjectIdChangesNothing(s: Tables, t: Table, id: JsValue, fault: Option<nat>,
                               name: string, entries: seq<(string, JsValue)>, idColumn: string, caseInsensitiveNames: bool)
    requires Complete(s) && id.Obj?
    ensures !DeleteOutcome(s, t, SqlKey(id), fault).Committed?
    ensures ExecUpdate(s, name, Keys(entries), idColumn, UpdateParams(entries, id), caseInsensitiveNames).UpdateFailed?
  {
    var params := UpdateParams(entries, id);
    assert params[|entries|] == id;
  }

  // ----- update-data as written

  /** The answer update-data sends for the store's verdict on its statement. */
  function UpdateResponse(r: UpdateResult): Response
  {
    match r
    case UpdateFailed => Error(500, "Failed to update record")
    case Updated(affected, _) =>
      if affected == 0 then Error(404, "Record not found") else Response(200, Success("Record updated successfully"))
  }

  /** The text `${idColumn}` puts into update-data's WHERE clause as written: the id column
      for a table's name, and for an inherited member the text of that function (of
      `Object.prototype` itself for `__proto__`). */
  function IdColumnTextAsWritten(name: string): string
  {
    match FromLogical(name)
    case Some(t) => IdColumn(t)
    case None => if name == "__proto__" then "[object Object]" else "function " + name + "() { [native code] }"
  }

  /** update-data as written, once authentication and the required-field check have passed:
      `idColumnMap[table]` also finds the inherited members, and the statement then carries
      the member's text where the id column belongs; the id goes in as `connection.query`
      writes it. */
  function UpdateAsWritten(s: Tables, table: JsValue, id: JsValue, data: JsValue, caseInsensitiveNames: bool): Response
    requires Complete(s)
  {
    if !ExactGuardPassesAsWritten(table) then Error(400, "Invalid table name")
    else
      UpdateResponse(ExecUpdateAsWritten(s, table.s, Keys(Entries(data)), IdColumnTextAsWritten(table.s),
                                         Values(Entries(data)), id, caseInsensitiveNames))
  }

  /** `UPDATE <name> SET <keys> = ? ... WHERE <idColumn> = ?` as the store runs it once
      `connection.query` has written `id` into it: the same refusals as `ExecUpdate`, and then
      every row the WHERE clause selects is rewritten. */
  function ExecUpdateAsWritten(s: Tables, name: string, keys: seq<string>, idColumn: string,
                               values: seq<JsValue>, id: JsValue, caseInsensitiveNames: bool): (r: UpdateResult)
    requires Complete(s)
    ensures r.Updated? ==> Complete(r.after)
  {
    match StoreTable(name, caseInsensitiveNames)
    case None => UpdateFailed
    case Some(t) =>
      if keys == [] || |values| != |keys| || ColumnNamed(Columns(t), idColumn) != Some(IdColumn(t)) then UpdateFailed
      else match ResolveColumns(Columns(t), keys)
        case None => UpdateFailed
        case Some(cols) =>
          if IdColumn(t) in cols then UpdateFailed
          else match ToValues(values)
            case None => UpdateFailed
            case Some(vals) =>
              match IdTextAsWritten(id)
              case Scalar(key) => ApplyUpdate(s, t, cols, vals, key)
              case _ =>
                match KeyMatchesAsWritten(s, t, id)
                case None => UpdateFailed
                case Some(matched) => ApplyToMatched(s, t, cols, vals, matched)
  }

  /** The rows of `rows` whose keys are in `matched` with the SET list assigned; the others as they were. */
  function RewriteRows(rows: map<int, Row>, matched: set<int>, cols: seq<string>, vals: seq<Value>): (r: map<int, Row>)
    requires |cols| == |vals|
    ensures r.Keys == rows.Keys
    ensures forall k :: k in r ==> r[k] == if k in matched then Assign(rows[k], cols, vals) else rows[k]
  {
    map k | k in rows :: if k in matched then Assign(rows[k], cols, vals) else rows[k]
  }

  /** Strict mode refuses the rewrite when a rewritten row holds NULL in a NOT NULL column,
      and the UNIQUE index when a rewritten customer shares its new e-mail with another row. */
  predicate RewriteRefused(t: Table, rows: map<int, Row>, matched: set<int>, cols: seq<string>)
  {
    (exists k :: k in matched && k in rows && NullInNotNull(t, rows[k]))
    || (t == Customers && "Email" in cols
        && exists k, j :: k in matched && k in rows && j in rows && j != k
             && "Email" in rows[k] && "Email" in rows[j] && rows[j]["Email"] == rows[k]["Email"])
  }

  /** The rewrite of every selected row; `affectedRows` counts them. */
  function ApplyToMatched(s: Tables, t: Table, cols: seq<string>, vals: seq<Value>, matched: set<int>): (r: UpdateResult)
    requires Complete(s) && |cols| == |vals|
    ensures r.Updated? ==> Complete(r.after) && r.after[t].Keys == s[t].Keys
  {
    var rows := RewriteRows(s[t], matched, cols, vals);
    if RewriteRefused(t, rows, matched, cols) then UpdateFailed
    else Updated(|matched|, s[t := rows])
  }

  /** For a scalar id the statement as written is the statement the handler the model uses runs. */
  lemma ScalarUpdateAgrees(s: Tables, name: string, keys: seq<string>, idColumn: string,
                           values: seq<JsValue>, id: JsValue, caseInsensitiveNames: bool)
    requires Complete(s) && !id.Obj?
    ensures ExecUpdateAsWritten(s, name, keys, idColumn, values, id, caseInsensitiveNames)
      == ExecUpdate(s, name, keys, idColumn, values + [id], caseInsensitiveNames)
  {
    var params := values + [id];
    assert params[..|values|] == values;
    assert params[|values|] == id;
  }

  /** As written, `{"table": "customers", "id": {"CustomerID": 1}, "data": {"Name": x}}`
      turns the WHERE clause into `(CustomerID = CustomerID) = 1`: every customer is renamed,
      and the answer is a success. */
  lemma ObjectIdUpdatesEveryRow(s: Tables, x: string)
    requires Complete(s) && s[Customers] != map[]
    requires forall k :: k in s[Customers] ==> !NullInNotNull(Customers, s[Customers][k])
    ensures ExecUpdateAsWritten(s, "customers", ["Name"], "CustomerID", [Str(x)], Obj([("CustomerID", Num(1))]), true)
      == Updated(|s[Customers].Keys|, s[Customers := Renamed(s[Customers], x)])
    ensures UpdateAsWritten(s, Str("customers"), Obj([("CustomerID", Num(1))]), Obj([("Name", Str(x))]), true)
      == Response(200, Success("Record updated successfully"))
  {
    ObjectIdSelectsEveryCustomer(s, x);
    RenameEveryCustomer(s, x);
    CustomersUpdateAsWritten(s, Obj([("CustomerID", Num(1))]), x);
  }

  /** update-data as written for `{"table": "customers", "data": {"Name": x}}` runs
      `UPDATE customers SET Name = ? WHERE CustomerID = ?`. */
  lemma CustomersUpdateAsWritten(s: Tables, id: JsValue, x: string)
    requires Complete(s)
    ensures UpdateAsWritten(s, Str("customers"), id, Obj([("Name", Str(x))]), true)
      == UpdateResponse(ExecUpdateAsWritten(s, "customers", ["Name"], "CustomerID", [Str(x)], id, true))
  {
    CustomersPassAsWritten();
    OneEntry("Name", Str(x));
  }

  /** `customers` gets past the guard as written, and its id column is `CustomerID`. */
  lemma CustomersPassAsWritten()
    ensures ExactGuardPassesAsWritten(Str("customers")) && IdColumnTextAsWritten("customers") == "CustomerID"
  {
    GuardsAsWrittenAdmit("customers");
    assert FromLogical("customers") == Some(Customers);
  }

  lemma OneEntry(k: string, v: JsValue)
    ensures Keys(Entries(Obj([(k, v)]))) == [k] && Values(Entries(Obj([(k, v)]))) == [v]
  {
  }

  /** The statement runs, and its WHERE clause selects every customer. */
  lemma ObjectIdSelectsEveryCustomer(s: Tables, x: string)
    requires Complete(s)
    ensures ExecUpdateAsWritten(s, "customers", ["Name"], "CustomerID", [Str(x)], Obj([("CustomerID", Num(1))]), true)
      == ApplyToMatched(s, Customers, ["Name"], [TextVal(x)], s[Customers].Keys)
  {
    assert IdColumn(Customers) == "CustomerID";
    assert IdColumn(Customers) !in ["Name"];
    CustomersNamedAnyCase();
    NameColumnOfCustomers();
    IdColumnNamesItself(Customers);
    SelfComparisonMatchesEveryKey(s, Customers);
    OnePairIdText("CustomerID", Num(1));
    OneText(x);
    MatchedUpdateAsWritten(s, "customers", ["Name"], "CustomerID", [Str(x)], Obj([("CustomerID", Num(1))]), true,
                           Customers, ["Name"], [TextVal(x)], s[Customers].Keys);
  }

  /** Once the name, the columns and the values resolve, an id the statement does not bind
      as a value rewrites the rows its text selects. */
  lemma MatchedUpdateAsWritten(s: Tables, name: string, keys: seq<string>, idColumn: string, values: seq<JsValue>,
                               id: JsValue, caseInsensitiveNames: bool,
                               t: Table, cols: seq<string>, vals: seq<Value>, matched: set<int>)
    requires Complete(s) && StoreTable(name, caseInsensitiveNames) == Some(t)
    requires keys != [] && |values| == |keys| && ColumnNamed(Columns(t), idColumn) == Some(IdColumn(t))
    requires ResolveColumns(Columns(t), keys) == Some(cols) && IdColumn(t) !in cols
    requires ToValues(values) == Some(vals) && !IdTextAsWritten(id).Scalar?
    requires KeyMatchesAsWritten(s, t, id) == Some(matched)
    ensures ExecUpdateAsWritten(s, name, keys, idColumn, values, id, caseInsensitiveNames)
      == ApplyToMatched(s, t, cols, vals, matched)
  {
  }

  /** Renaming every customer keeps every NOT NULL cell, and touches no e-mail. */
  lemma RenameEveryCustomer(s: Tables, x: string)
    requires Complete(s)
    requires forall k :: k in s[Customers] ==> !NullInNotNull(Customers, s[Customers][k])
    ensures ApplyToMatched(s, Customers, ["Name"], [TextVal(x)], s[Customers].Keys)
      == Updated(|s[Customers].Keys|, s[Customers := Renamed(s[Customers], x)])
  {
    var rows := RewriteRows(s[Customers], s[Customers].Keys, ["Name"], [TextVal(x)]);
    forall k | k in rows
      ensures rows[k] == Renamed(s[Customers], x)[k] && !NullInNotNull(Customers, rows[k])
    {
      RenameKeepsNotNull(s[Customers][k], x);
    }
    assert rows == Renamed(s[Customers], x);
    assert !RewriteRefused(Customers, rows, s[Customers].Keys, ["Name"]);
  }

  /** A one-string parameter list converts to its one text value. */
  lemma OneText(x: string)
    ensures ToValues([Str(x)]) == Some([TextVal(x)])
  {
    var r := ToValues([Str(x)]);
    assert ToValue(Str(x)) == Some(TextVal(x));
    assert r.Some?;
    assert r.value == [TextVal(x)];
  }

  /** Every row with its `Name` set to `x`. */
  function Renamed(rows: map<int, Row>, x: string): (r: map<int, Row>)
    ensures r.Keys == rows.Keys
    ensures forall k :: k in r ==> r[k] == rows[k]["Name" := TextVal(x)]
  {
    map k | k in rows :: rows[k]["Name" := TextVal(x)]
  }

  /** On a case-insensitive server, the identifier `customers` names the table Customers. */
  lemma CustomersNamedAnyCase()
    ensures StoreTable("customers", true) == Some(Customers)
  {
    LogicalNamesInStatements(Customers, Customers, true);
    if StoreTable("customers", true).Some? {
      LogicalNamesInStatements(Customers, StoreTable("customers", true).value, true);
    }
  }

  /** `SET Name = ?` names the customer column `Name`. */
  lemma NameColumnOfCustomers()
    ensures ResolveColumns(Columns(Customers), ["Name"]) == Some(["Name"])
  {
    var cs := Columns(Customers);
    assert |ToLower(cs[0].field)| != |ToLower("Name")|;
    assert cs[1..][0].field == "Name";
    OneColumnResolves(cs, "Name", "Name");
  }

  /** A one-key SET list resolves to the column its key names. */
  lemma OneColumnResolves(columns: seq<Column>, key: string, c: string)
    requires ColumnNamed(columns, key) == Some(c)
    ensures ResolveColumns(columns, [key]) == Some([c])
  {
    assert [key][1..] == [];
    assert [c] + [] == [c];
  }

  /** Renaming a row that has all its NOT NULL cells keeps them. */
  lemma RenameKeepsNotNull(row: Row, x: string)
    requires !NullInNotNull(Customers, row)
    ensures Assign(row, ["Name"], [TextVal(x)]) == row["Name" := TextVal(x)]
    ensures !NullInNotNull(Customers, row["Name" := TextVal(x)])
  {
    assert Assign(row, ["Name"], [TextVal(x)]) == Assign(row["Name" := TextVal(x)], [], []);
  }

  /** As written, a name such as `toString` passes the guard, and the store refuses the
      statement built from it: a 500 where the handler the model uses answers 400. */
  lemma PrototypeNameUpdateFails(s: Tables, name: string, id: JsValue, data: JsValue, caseInsensitiveNames: bool)
    requires Complete(s) && name in ObjectPrototypeMembers
    ensures ResolveExact(Str(name)).None?
    ensures UpdateAsWritten(s, Str(name), id, data, caseInsensitiveNames) == Error(500, "Failed to update record")
  {
    GuardsAsWrittenAdmit(name);
    PrototypeMemberIsNoTable(name);
    MemberTextIsNoColumn(name);
  }

  lemma MemberTextIsNoColumn(name: string)
    requires FromLogical(name).None?
    ensures forall t :: ColumnNamed(Columns(t), IdColumnTextAsWritten(name)) != Some(IdColumn(t))
  {
    var text := IdColumnTextAsWritten(name);
    assert |text| >= 15;
    forall t ensures ColumnNamed(Columns(t), text) != Some(IdColumn(t)) {
      assert |IdColumn(t)| < |text|;
    }
  }

  /** For every other name and an id that is no object, update-data as written answers as
      the handler the model uses (`ObjectIdUpdatesEveryRow` shows what an object id does). */
  lemma UpdateAgreesOffPrototype(s: Tables, table: JsValue, id: JsValue, data: JsValue, caseInsensitiveNames: bool)
    requires Complete(s) && !(table.Str? && table.s in ObjectPrototypeMembers) && !id.Obj?
    ensures UpdateAsWritten(s, table, id, data, caseInsensitiveNames)
      == if ResolveExact(table).None? then Error(400, "Invalid table name")
         else UpdateResponse(ExecUpdate(s, table.s, Keys(Entries(data)), IdColumn(ResolveExact(table).value),
                                        UpdateParams(Entries(data), id), caseInsensitiveNames))
  {
    if table.Str? {
      GuardsAsWrittenAdmit(table.s);
      ScalarUpdateAgrees(s, table.s, Keys(Entries(data)), IdColumnTextAsWritten(table.s),
                         Values(Entries(data)), id, caseInsensitiveNames);
    }
  }

  lemma MissingOfTwo(a: JsValue, b: JsValue)
    ensures MissingRequired([a, b]) <==> !Truthy(a) || !Truthy(b)
  {
    assert [a, b][1..] == [b];
  }

  // ----- The search statements of the schema

  lemma ConditionsUpTo(all: seq<Column>, n: nat, i: nat, term: string)
    requires i < n <= |all| && ConditionFor(all, all[i].field, term) != []
    ensures Conditions(all, n, term) != []
  {
    var parts := Contributions(all, term);
    assert parts[i] == ConditionFor(all, all[i].field, term);
    FlattenNonEmpty(parts, n, i);
  }


  lemma VarcharIsText()
    ensures TextLike("varchar(20)")
  {
    assert OccursAt("varchar(20)", "char", 3);
  }

  /** Every table `/api/search-data` accepts has a `varchar(20)` column, so the search always
      has a condition and the "no searchable columns" answer cannot happen. */
  lemma SearchableTablesHaveConditions(t: Table, term: string)
    requires LogicalName(t) in SearchableNames
    ensures Conditions(Columns(t), |Columns(t)|, term) != []
  {
    var all := Columns(t);
    SchemaAgreesWithRegistry(t);
    var i := if t == MenuItems then 2 else if t == Orders then 5 else 1;
    assert all[i].sqlType == "varchar(20)";
    VarcharIsText();
    ConditionOfColumn(all, i, term);
    ConditionsUpTo(all, |all|, i, term);
  }

  lemma {:induction false} FieldsWithoutPlaceholder(cs: seq<Column>)
    requires forall i, k :: 0 <= i < |cs| && 0 <= k < |cs[i].field| ==> cs[i].field[k] != '?'
    ensures forall i :: 0 <= i < |cs| ==> '?' !in cs[i].field
  {
  }

  lemma TableNamesWithoutPlaceholder(t: Table)
    ensures '?' !in LogicalName(t)
  {
    var name := LogicalName(t);
    assert forall k :: 0 <= k < |name| ==> name[k] != '?';
  }

  /** No name a search statement splices in holds a placeholder. */
  lemma NoPlaceholderInNames(t: Table)
    requires LogicalName(t) in SearchableNames
    ensures '?' !in LogicalName(t)
    ensures forall i :: 0 <= i < |Columns(t)| ==> '?' !in Columns(t)[i].field
  {
    TableNamesWithoutPlaceholder(t);
    match t {
      case Customers => CustomerFieldsPlain();
      case Resturants => RestaurantFieldsPlain();
      case MenuItems => MenuItemFieldsPlain();
      case Orders => OrderFieldsPlain();
      case _ =>
    }
  }

  lemma CustomerFieldsPlain()
    ensures forall i :: 0 <= i < |Columns(Customers)| ==> '?' !in Columns(Customers)[i].field
  {
    var cs := Columns(Customers);
    FieldsWithoutPlaceholder(cs[..3]);
    FieldsWithoutPlaceholder(cs[3..]);
    forall i | 0 <= i < |cs| ensures '?' !in cs[i].field {
      if i < 3 { assert cs[i] == cs[..3][i]; } else { assert cs[i] == cs[3..][i - 3]; }
    }
  }

  lemma RestaurantFieldsPlain()
    ensures forall i :: 0 <= i < |Columns(Resturants)| ==> '?' !in Columns(Resturants)[i].field
  {
    var cs := Columns(Resturants);
    FieldsWithoutPlaceholder(cs[..3]);
    FieldsWithoutPlaceholder(cs[3..]);
    forall i | 0 <= i < |cs| ensures '?' !in cs[i].field {
      if i < 3 { assert cs[i] == cs[..3][i]; } else { assert cs[i] == cs[3..][i - 3]; }
    }
  }

  lemma MenuItemFieldsPlain()
    ensures forall i :: 0 <= i < |Columns(MenuItems)| ==> '?' !in Columns(MenuItems)[i].field
  {
    var cs := Columns(MenuItems);
    FieldsWithoutPlaceholder(cs[..3]);
    FieldsWithoutPlaceholder(cs[3..]);
    forall i | 0 <= i < |cs| ensures '?' !in cs[i].field {
      if i < 3 { assert cs[i] == cs[..3][i]; } else { assert cs[i] == cs[3..][i - 3]; }
    }
  }

  lemma OrderFieldsPlain()
    ensures forall i :: 0 <= i < |Columns(Orders)| ==> '?' !in Columns(Orders)[i].field
  {
    var cs := Columns(Orders);
    FieldsWithoutPlaceholder(cs[..3]);
    FieldsWithoutPlaceholder(cs[3..]);
    forall i | 0 <= i < |cs| ensures '?' !in cs[i].field {
      if i < 3 { assert cs[i] == cs[..3][i]; } else { assert cs[i] == cs[3..][i - 3]; }
    }
  }

  /** The search statement of a searchable table binds one parameter per placeholder. */
  lemma SearchStatementBindsAll(t: Table, term: string)
    requires LogicalName(t) in SearchableNames
    ensures var conds := Conditions(Columns(t), |Columns(t)|, term);
      conds != [] && Count(SearchSql(LogicalName(t), conds), '?') == |SearchParams(|conds|, term)|
  {
    SearchableTablesHaveConditions(t, term);
    NoPlaceholderInNames(t);
    SearchPlaceholdersMatchParams(LogicalName(t), Columns(t), term);
  }

  /** One statement of the delete-data transaction on store `r`: it throws when the fault
      strikes it or a foreign key blocks it, and the target delete stops the run when it
      affected no row; otherwise the run goes on from `next`. */
  method RunStatement(r: Tables, t: Table, key: Option<int>, fault: Option<nat>, i: nat)
    returns (next: Tables, stop: Option<Response>)
    requires Complete(r) && i < |DeletePlan(t)|
    ensures Complete(next)
    ensures stop.Some? ==> !RunFrom(r, t, key, fault, i).Committed?
    ensures stop.Some? ==> stop.value == DeleteResponse(t, RunFrom(r, t, key, fault, i))
    ensures stop.None? ==> RunFrom(next, t, key, fault, i + 1) == RunFrom(r, t, key, fault, i)
  {
    next := ApplyStep(r, DeletePlan(t)[i], key);
    if fault == Some(i) || Violates(r, next) {
      return next, Some(Error(500, "Failed to delete record"));
    }
    if i == |DeletePlan(t)| - 1 && AffectedByKey(r, t, key) == 0 {
      return next, Some(Error(404, NotFoundMessage(t)));
    }
    RunFromPassingStep(r, t, key, fault, i);
    stop := None;
  }

  class Database {
    /** The rows of the eight tables. */
    var tables: Tables
    /** Whether the server resolves table names in statements without regard to case
        (MySQL's `lower_case_table_names`). */
    const caseInsensitiveNames: bool

    ghost predicate Valid()
      reads this
    {
      Complete(tables)
    }

    constructor (initial: Tables, caseInsensitive: bool)
      requires Complete(initial)
      ensures Valid() && tables == initial && caseInsensitiveNames == caseInsensitive
    {
      tables := initial;
      caseInsensitiveNames := caseInsensitive;
    }

    /** `GET /api/get-data?table=`: every row of the table the name denotes in any case. */
    function GetData(header: Option<string>, tokenAccepted: bool, table: Option<string>): (resp: Response)
      reads this
      requires Valid()
      ensures Guard(header, tokenAccepted, [QueryValue(table)], "Table name is required").Some? ==>
        resp == Guard(header, tokenAccepted, [QueryValue(table)], "Table name is required").value
      ensures resp.status == 200 <==>
        RequireAuth(header, tokenAccepted).None? && table.Some? && ResolveAnyCase(table.value).Some?
      ensures resp.status == 200 ==> resp.body == TableRows(tables[ResolveAnyCase(table.value).value])
      ensures (RequireAuth(header, tokenAccepted).None? && table.Some? && table.value != ""
               && ResolveAnyCase(table.value).None?) ==> resp == Error(400, "Invalid table name")
    {
      assert [QueryValue(table)][1..] == [];
      match Guard(header, tokenAccepted, [QueryValue(table)], "Table name is required")
      case Some(rejection) => rejection
      case None =>
        match ResolveAnyCase(table.value)
        case None => Error(400, "Invalid table name")
        case Some(t) => Response(200, TableRows(tables[t]))
    }

    /** get-data as written: `tableNameMap[table.toLowerCase()]` also finds the members every
        object inherits, and the statement built from such a member is no SQL, so the
        request fails with a 500 instead of being refused. */
    function GetDataAsWritten(header: Option<string>, tokenAccepted: bool, table: Option<string>): (resp: Response)
      reads this
      requires Valid()
      ensures table.Some? && ToLower(table.value) !in ObjectPrototypeMembers ==>
        resp == GetData(header, tokenAccepted, table)
    {
      assert [QueryValue(table)][1..] == [];
      match Guard(header, tokenAccepted, [QueryValue(table)], "Table name is required")
      case Some(rejection) => rejection
      case None =>
        GuardsAsWrittenAdmit(table.value);
        if !AnyCaseGuardPassesAsWritten(table.value) then Error(400, "Invalid table name")
        else match ResolveAnyCase(table.value)
          case Some(t) => Response(200, TableRows(tables[t]))
          case None => Error(500, "Failed to fetch data")
    }

    /** `GET /api/get-record?table=&id=`: the row whose primary key the id denotes. */
    function GetRecord(header: Option<string>, tokenAccepted: bool, table: Option<string>, id: Option<string>)
      : (resp: Response)
      reads this
      requires Valid()
      ensures resp.status == 200 <==>
        RequireAuth(header, tokenAccepted).None? && table.Some? && id.Some? && id.value != ""
        && ResolveAnyCase(table.value).Some? && SqlKey(Str(id.value)).Some?
        && SqlKey(Str(id.value)).value in tables[ResolveAnyCase(table.value).value]
      ensures resp.status == 200 ==>
        var t, k := ResolveAnyCase(table.value).value, SqlKey(Str(id.value)).value;
        resp.body == RecordRow(k, tables[t][k])
      ensures resp.status == 404 ==> resp == Error(404, "Record not found")
      ensures resp.status in {200, 400, 401, 404}
      ensures Guard(header, tokenAccepted, [QueryValue(table), QueryValue(id)], "Table name and record ID are required").Some? ==>
        resp == Guard(header, tokenAccepted, [QueryValue(table), QueryValue(id)], "Table name and record ID are required").value
      ensures (RequireAuth(header, tokenAccepted).None? && table.Some? && table.value != "" && id.Some? && id.value != ""
               && ResolveAnyCase(table.value).None?) ==> resp == Error(400, "Invalid table name")
      ensures (RequireAuth(header, tokenAccepted).None? && table.Some? && table.value != "" && id.Some? && id.value != ""
               && ResolveAnyCase(table.value).Some?
               && !(SqlKey(Str(id.value)).Some? && SqlKey(Str(id.value)).value in tables[ResolveAnyCase(table.value).value]))
        ==> resp == Error(404, "Record not found")
    {
      MissingOfTwo(QueryValue(table), QueryValue(id));
      match Guard(header, tokenAccepted, [QueryValue(table), QueryValue(id)], "Table name and record ID are required")
      case Some(rejection) => rejection
      case None =>
        match ResolveAnyCase(table.value)
        case None => Error(400, "Invalid table name")
        case Some(t) =>
          var key := SqlKey(Str(id.value));
          if key.Some? && key.value in tables[t] then Response(200, RecordRow(key.value, tables[t][key.value]))
          else Error(404, "Record not found")
    }

    /** get-record as written: `tableMap[table.toLowerCase()]` also finds the inherited
        members, and `SELECT * FROM ${tableInfo.name} WHERE ${tableInfo.idColumn} = ?`
        built from one names no table, so the request fails with a 500. */
    function GetRecordAsWritten(header: Option<string>, tokenAccepted: bool, table: Option<string>, id: Option<string>)
      : (resp: Response)
      reads this
      requires Valid()
      ensures table.Some? && ToLower(table.value) !in ObjectPrototypeMembers ==>
        resp == GetRecord(header, tokenAccepted, table, id)
    {
      MissingOfTwo(QueryValue(table), QueryValue(id));
      match Guard(header, tokenAccepted, [QueryValue(table), QueryValue(id)], "Table name and record ID are required")
      case Some(_) => GetRecord(header, tokenAccepted, table, id)
      case None =>
        GuardsAsWrittenAdmit(table.value);
        if AnyCaseGuardPassesAsWritten(table.value) && ResolveAnyCase(table.value).None?
        then Error(500, "Failed to fetch record")
        else GetRecord(header, tokenAccepted, table, id)
    }

    /** `GET /api/search-data?table=&term=`: the statement whose rows are sent back, built
        from the columns `SHOW COLUMNS` reports for the table. */
    method SearchData(header: Option<string>, tokenAccepted: bool, table: Option<string>, term: Option<string>)
      returns (resp: Response)
      requires Valid()
      ensures resp.status == 200 <==>
        RequireAuth(header, tokenAccepted).None? && table.Some? && term.Some? && term.value != ""
        && table.value in SearchableNames && StoreTable(table.value, caseInsensitiveNames).Some?
        && Conditions(Columns(ResolveSearchable(table.value).value), |Columns(ResolveSearchable(table.value).value)|, term.value) != []
      ensures resp.status == 200 ==>
        var t := ResolveSearchable(table.value).value;
        var conditions := Conditions(Columns(t), |Columns(t)|, term.value);
        StoreTable(table.value, caseInsensitiveNames) == Some(t)
        && resp.body == SearchStatement(SearchSql(table.value, conditions), SearchParams(|conditions|, term.value))
      ensures resp.status in {200, 400, 401, 500}
      ensures Guard(header, tokenAccepted, [QueryValue(table), QueryValue(term)], "Table name and search term are required").Some? ==>
        resp == Guard(header, tokenAccepted, [QueryValue(table), QueryValue(term)], "Table name and search term are required").value
      ensures (RequireAuth(header, tokenAccepted).None? && table.Some? && table.value != "" && term.Some? && term.value != ""
               && table.value !in SearchableNames) ==> resp == Error(400, "Invalid table name")
      ensures (RequireAuth(header, tokenAccepted).None? && table.Some? && table.value != "" && term.Some? && term.value != ""
               && table.value in SearchableNames && StoreTable(table.value, caseInsensitiveNames).None?)
        ==> resp == Error(500, "Failed to search data")
    {
      var rejection := Guard(header, tokenAccepted, [QueryValue(table), QueryValue(term)],
                             "Table name and search term are required");
      MissingOfTwo(QueryValue(table), QueryValue(term));
      if rejection.Some? {
        return rejection.value;
      }
      var searchable := ResolveSearchable(table.value);
      if searchable.None? {
        return Error(400, "Invalid table name");
      }
      var stored := StoreTable(table.value, caseInsensitiveNames);
      if stored.None? {
        return Error(500, "Failed to search data");
      }
      var t := stored.value;
      LogicalNamesInStatements(searchable.value, t, caseInsensitiveNames);
      assert t == searchable.value;
      var conditions := PlanConditions(Columns(t), term.value);
      if conditions == [] {
        return Error(400, NoSearchableColumns);
      }
      resp := Response(200, SearchStatement(SearchSql(table.value, conditions),
                                            SearchParams(|conditions|, term.value)));
    }

    /** `POST /api/update-data`: rewrite the columns the data object names in the row
        whose primary key the id denotes. */
    method UpdateData(header: Option<string>, tokenAccepted: bool, table: JsValue, id: JsValue, data: JsValue)
      returns (resp: Response)
      requires Valid()
      modifies this
      ensures Valid()
      ensures resp.status != 200 ==> tables == old(tables)
      ensures resp.status == 200 <==>
        RequireAuth(header, tokenAccepted).None? && Truthy(table) && Truthy(id) && Truthy(data)
        && ResolveExact(table).Some?
        && ExecUpdate(old(tables), table.s, Keys(Entries(data)), IdColumn(ResolveExact(table).value),
                      UpdateParams(Entries(data), id), caseInsensitiveNames).Updated?
        && SqlKey(id).Some? && SqlKey(id).value in old(tables)[ResolveExact(table).value]
      ensures resp.status == 200 ==>
        var t, k := ResolveExact(table).value, SqlKey(id).value;
        resp == Response(200, Success("Record updated successfully"))
        && caseInsensitiveNames && t !in {MenuItems, OrderDetails, DeliveryStaff}
        && tables[t].Keys == old(tables)[t].Keys
        && (forall u :: u != t ==> tables[u] == old(tables)[u])
        && (forall j :: j in tables[t] && j != k ==> tables[t][j] == old(tables)[t][j])
      ensures resp.status == 200 ==>
        tables == ExecUpdate(old(tables), table.s, Keys(Entries(data)), IdColumn(ResolveExact(table).value),
                             UpdateParams(Entries(data), id), caseInsensitiveNames).after
      ensures Guard(header, tokenAccepted, [table, id, data], "Table name, record ID, and data are required").Some? ==>
        resp == Guard(header, tokenAccepted, [table, id, data], "Table name, record ID, and data are required").value
      ensures (Guard(header, tokenAccepted, [table, id, data], "Table name, record ID, and data are required").None?
               && ResolveExact(table).None?) ==> resp == Error(400, "Invalid table name")
      ensures (Guard(header, tokenAccepted, [table, id, data], "Table name, record ID, and data are required").None?
               && ResolveExact(table).Some?) ==>
        resp == UpdateResponse(ExecUpdate(old(tables), table.s, Keys(Entries(data)), IdColumn(ResolveExact(table).value),
                                          UpdateParams(Entries(data), id), caseInsensitiveNames))
      ensures resp.status in {200, 400, 401, 404, 500}
    {
      var rejection := Guard(header, tokenAccepted, [table, id, data], "Table name, record ID, and data are required");
      assert [table, id, data][1..] == [id, data];
      MissingOfTwo(id, data);
      if rejection.Some? {
        return rejection.value;
      }
      var target := ResolveExact(table);
      if target.None? {
        return Error(400, "Invalid table name");
      }
      var t := target.value;
      var entries := Entries(data);
      var keys, params := Keys(entries), UpdateParams(entries, id);
      var result := ExecUpdate(tables, table.s, keys, IdColumn(t), params, caseInsensitiveNames);
      if result.UpdateFailed? {
        return Error(500, "Failed to update record");
      }
      UpdateChangesOnlyTheRow(tables, table.s, keys, IdColumn(t), params, caseInsensitiveNames);
      UpdateNeedsCaseInsensitiveNames(tables, t, keys, params, caseInsensitiveNames);
      assert params[|keys|] == id;
      if result.affected == 0 {
        return Error(404, "Record not found");
      }
      tables := result.after;
      resp := Response(200, Success("Record updated successfully"));
    }

    /** `POST /api/delete-data`: in one transaction, the dependent rows of the table's cascade
        and then the row itself; a statement that throws or a row that is not there rolls
        every statement back. `fault` names the statement (0, 1, ...; the COMMIT last) that
        throws for a reason outside the model, if any. */
    method DeleteData(header: Option<string>, tokenAccepted: bool, table: JsValue, id: JsValue, fault: Option<nat>)
      returns (resp: Response)
      requires Valid()
      modifies this
      ensures Valid()
      ensures Guard(header, tokenAccepted, [table, id], "Table name and record ID are required").Some? ==>
        resp == Guard(header, tokenAccepted, [table, id], "Table name and record ID are required").value
        && tables == old(tables)
      ensures (Guard(header, tokenAccepted, [table, id], "Table name and record ID are required").None?
               && ResolveExact(table).None?) ==>
        resp == Error(400, "Invalid table name") && tables == old(tables)
      ensures (Guard(header, tokenAccepted, [table, id], "Table name and record ID are required").None?
               && ResolveExact(table).Some?) ==>
        var t := ResolveExact(table).value;
        var outcome := DeleteOutcome(old(tables), t, SqlKey(id), fault);
        resp == DeleteResponse(t, outcome)
        && tables == (if outcome.Committed? then outcome.after else old(tables))
      ensures Intact(old(tables)) ==> Intact(tables)
    {
      var rejection := Guard(header, tokenAccepted, [table, id], "Table name and record ID are required");
      if rejection.Some? {
        return rejection.value;
      }
      var target := ResolveExact(table);
      if target.None? {
        return Error(400, "Invalid table name");
      }
      var t, key := target.value, SqlKey(id);
      RunFromDecides(tables, t, key, fault, 0);
      assert DeletePlan(t)[..0] == [];
      resp := RunDeletePlan(t, key, fault);
      if resp.status == 200 {
        CommitPreservesIntactWhen(old(tables), t, key, fault);
      }
    }

    /** The transaction of delete-data: the plan's statements one by one, each checked
        against the foreign keys; the first failure or a missing target rolls back. */
    method RunDeletePlan(t: Table, key: Option<int>, fault: Option<nat>) returns (resp: Response)
      requires Complete(tables)
      modifies this
      ensures resp == DeleteResponse(t, RunFrom(old(tables), t, key, fault, 0))
      ensures tables == if RunFrom(old(tables), t, key, fault, 0).Committed?
        then RunFrom(old(tables), t, key, fault, 0).after else old(tables)
    {
      var snapshot := tables;
      ghost var outcome := RunFrom(snapshot, t, key, fault, 0);
      var i := 0;
      while i < |DeletePlan(t)|
        invariant 0 <= i <= |DeletePlan(t)| && Complete(tables)
        invariant RunFrom(tables, t, key, fault, i) == outcome
      {
        var next, stop := RunStatement(tables, t, key, fault, i);
        if stop.Some? {
          tables := snapshot;
          return stop.value;
        }
        tables := next;
        i := i + 1;
      }
      assert i == |DeletePlan(t)|;
      if fault == Some(|DeletePlan(t)|) {
        tables := snapshot;
        return Error(500, "Failed to delete record");
      }
      resp := Response(200, Success("Record deleted successfully"));
    }

    /** `POST /api/add-data` (no authentication): insert a row built from the data object;
        a customer gets the next id. `clock` is the time `NOW()` reads. */
    method AddData(table: JsValue, data: JsValue, clock: int) returns (resp: Response)
      requires Valid()
      modifies this
      ensures Valid()
      ensures resp.status != 200 ==> tables == old(tables)
      ensures MissingRequired([table, data]) ==> resp == Error(400, "Table and data are required")
      ensures !MissingRequired([table, data]) && ResolveExact(table).None? ==>
        resp == Response(500, ErrorWithCause("Failed to add data", "Invalid table name"))
      ensures !MissingRequired([table, data]) && ResolveExact(table).Some? && ResolveExact(table).value != Customers ==>
        resp == Error(500, "Failed to add data")
      ensures resp.status == 200 <==>
        !MissingRequired([table, data]) && table == Str("customers")
        && CustomerAccepted(old(tables), CustomerFields(data))
      ensures resp.status == 200 ==>
        var n := NextId(MaxKey(old(tables)[Customers].Keys));
        resp == Response(200, Added(0))
        && (forall k :: k in old(tables)[Customers] ==> k < n)
        && tables == old(tables)[Customers := old(tables)[Customers][n := CustomerRow(CustomerFields(data))]]
      ensures Intact(old(tables)) ==> Intact(tables)
    {
      MissingOfTwo(table, data);
      if MissingRequired([table, data]) {
        return Error(400, "Table and data are required");
      }
      var target := ResolveExact(table);
      if target.None? {
        return Response(500, ErrorWithCause("Failed to add data", "Invalid table name"));
      }
      var t := target.value;
      var nextId := if t == Customers then NextId(MaxKey(tables[Customers].Keys)) else 0;
      var result := AddStatement(tables, t, data, nextId, clock);
      if t == Customers {
        AddCustomer(tables, data, clock);
        NextIdFresh(tables[Customers].Keys);
      } else {
        OnlyCustomersInsert(tables, t, data, nextId, clock);
      }
      if result.InsertFailed? {
        return Error(500, "Failed to add data");
      }
      InsertKeepsIntactWhen(tables, t, data, nextId, clock);
      tables := result.after;
      resp := Response(200, Added(0));
    }
  }

  /** As written, `table=Constructor` reaches the database and fails with a 500; the
      handler the model uses refuses it with a 400. */
  lemma PrototypeNameFetchFails(db: Database, header: Option<string>, tokenAccepted: bool)
    requires db.Valid() && RequireAuth(header, tokenAccepted).None?
    ensures db.GetDataAsWritten(header, tokenAccepted, Some("Constructor")) == Error(500, "Failed to fetch data")
    ensures db.GetData(header, tokenAccepted, Some("Constructor")) == Error(400, "Invalid table name")
  {
    PrototypeNameGetsPastGuards();
  }

  /** As written, `table=Constructor` reaches the database in get-record too and fails with
      a 500; the handler the model uses refuses it with a 400. */
  lemma PrototypeNameRecordFails(db: Database, header: Option<string>, tokenAccepted: bool, id: string)
    requires db.Valid() && RequireAuth(header, tokenAccepted).None? && id != ""
    ensures db.GetRecordAsWritten(header, tokenAccepted, Some("Constructor"), Some(id)) == Error(500, "Failed to fetch record")
    ensures db.GetRecord(header, tokenAccepted, Some("Constructor"), Some(id)) == Error(400, "Invalid table name")
  {
    PrototypeNameGetsPastGuards();
    MissingOfTwo(QueryValue(Some("Constructor")), QueryValue(Some(id)));
  }

  lemma CommitPreservesIntactWhen(s: Tables, t: Table, key: Option<int>, fault: Option<nat>)
    requires Complete(s) && DeleteOutcome(s, t, key, fault).Committed?
    ensures Intact(s) ==> Intact(DeleteOutcome(s, t, key, fault).after)
  {
    if Intact(s) {
      CommitPreservesIntact(s, t, key, fault);
    }
  }

  lemma InsertKeepsIntactWhen(s: Tables, t: Table, data: JsValue, nextId: int, clock: int)
    requires Complete(s) && AddStatement(s, t, data, nextId, clock).Inserted?
    ensures Intact(s) ==> Intact(AddStatement(s, t, data, nextId, clock).after)
  {
    if Intact(s) {
      InsertKeepsIntact(s, t, InsertColumns(t), NowColumns(t), InsertValues(t, data, nextId), clock);
    }
  }
}
