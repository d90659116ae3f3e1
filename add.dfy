/** `/api/add-data`: the next customer id computed before the insert, the column list and
    `values` array each case of the `switch` builds, and what the store does with the
    resulting `INSERT` when mysql2's `execute` sends it. */
module Insert {
  import opened Js
  import opened Registry
  import opened Store
  import opened Update

  // ----- `SELECT MAX(CustomerID)` and the next id

  lemma {:induction false} MaxExists(keys: set<int>)
    requires exists y :: y in keys
    ensures exists m :: m in keys && forall k :: k in keys ==> k <= m
  {
    var y :| y in keys;
    var rest := keys - {y};
    assert forall k :: k in keys ==> k == y || k in rest;
    if exists z :: z in rest {
      MaxExists(rest);
      var m :| m in rest && forall k :: k in rest ==> k <= m;
      var top := if y > m then y else m;
      assert forall k :: k in keys ==> k <= top;
    } else {
      assert forall k :: k in keys ==> k <= y;
    }
  }

  /** `SELECT MAX(key)`: `NULL` on an empty table, otherwise the largest key. */
  function MaxKey(keys: set<int>): (m: Option<int>)
    ensures m.None? <==> forall k :: k !in keys
    ensures m.Some? ==> m.value in keys && forall k :: k in keys ==> k <= m.value
  {
    if !(exists k :: k in keys) then None
    else
      MaxExists(keys);
      var m :| m in keys && forall k :: k in keys ==> k <= m;
      Some(m)
  }

  /** `(maxIdResult[0].maxId || 0) + 1` */
  function NextId(max: Option<int>): int
  {
    (if max.None? then 0 else max.value) + 1
  }

  /** The next id exceeds every key in use, so it is free; on an empty table it is 1. */
  lemma NextIdFresh(keys: set<int>)
    ensures forall k :: k in keys ==> k < NextId(MaxKey(keys))
    ensures NextId(MaxKey(keys)) !in keys
    ensures keys == {} ==> NextId(MaxKey(keys)) == 1
  {
  }

  // ----- The statements of the `switch`

  /** The columns the `INSERT` binds to `?` placeholders, in order. */
  function InsertColumns(t: Table): seq<string>
  {
    match t
    case Customers => ["CustomerID", "Name", "Email", "PhoneNo", "Address"]
    case Resturants => ["Name", "PhoneNo", "CuisineType", "Address"]
    case MenuItems => ["ResturantID", "Name", "Description", "Price"]
    case Orders => ["CustomerID", "ResturantID", "TotalAmount", "Status"]
    case OrderDetails => ["OrderID", "MenuItemID", "Quantity", "Price"]
    case DeliveryStaff => ["Name", "PhoneNo", "Availability"]
    case Deliveries => ["OrderID", "StaffID", "DeliveryStatus"]
    case Payments => ["OrderID", "TotalAmount", "PaymentMethod", "PaymentStatus"]
  }

  /** The columns the `INSERT` sets to `NOW()`. */
  function NowColumns(t: Table): seq<string>
  {
    match t
    case Orders => ["OrderDate"]
    case Deliveries => ["DeliveryTime"]
    case Payments => ["PaymentDate"]
    case _ => []
  }

  /** The `values` array, read from the request's `data` object. */
  function InsertValues(t: Table, data: JsValue, nextId: int): seq<JsValue>
  {
    match t
    case Customers =>
      [Num(nextId), Field(data, "Name"), Field(data, "Email"), Field(data, "PhoneNo"), Field(data, "Address")]
    case Resturants =>
      [Field(data, "Name"), Field(data, "PhoneNo"), Field(data, "CuisineType"), Field(data, "Address")]
    case MenuItems =>
      [Field(data, "ResturantID"), Field(data, "Name"), Field(data, "Description"), Field(data, "Price")]
    case Orders =>
      [Field(data, "CustomerID"), Field(data, "ResturantID"), Field(data, "TotalAmount"), Field(data, "Status")]
    case OrderDetails =>
      [Field(data, "OrderID"), Field(data, "MenuItemID"), Field(data, "Quantity"), Field(data, "Price")]
    case DeliveryStaff =>
      [Field(data, "Name"), Field(data, "PhoneNo"), Field(data, "Availability")]
    case Deliveries =>
      [Field(data, "OrderID"), Field(data, "StaffID"), Field(data, "DeliveryStatus")]
    case Payments =>
      [Field(data, "OrderID"), Field(data, "TotalAmount"), Field(data, "PaymentMethod"), Field(data, "PaymentStatus")]
  }

  /** No column is named twice. */
  predicate NoRepeats(cols: seq<string>)
  {
    forall i, j :: 0 <= i < j < |cols| ==> cols[i] != cols[j]
  }

  /** Each statement lines up with its `values` array: value `i` is the request field named
      like column `i`, except the customer id, which is the computed one. The statements name
      only columns of their table, each once, and only the customer statement names its
      table's primary key. */
  lemma StatementsLineUp(t: Table, data: JsValue, nextId: int)
    ensures var cols, vals := InsertColumns(t), InsertValues(t, data, nextId);
      |vals| == |cols|
      && forall i :: 0 <= i < |cols| ==>
           vals[i] == if t == Customers && i == 0 then Num(nextId) else Field(data, cols[i])
    ensures NoRepeats(InsertColumns(t))
    ensures NoRepeats(NowColumns(t))
    ensures IdColumn(t) in InsertColumns(t) + NowColumns(t) <==> t == Customers
  {
    ValuesLineUp(t, data, nextId);
    InsertColumnsDistinct(t);
    NowColumnsDistinct(t);
    KeyOnlyInCustomerStatement(t);
  }

  lemma ValuesLineUp(t: Table, data: JsValue, nextId: int)
    ensures var cols, vals := InsertColumns(t), InsertValues(t, data, nextId);
      |vals| == |cols|
      && forall i :: 0 <= i < |cols| ==>
           vals[i] == if t == Customers && i == 0 then Num(nextId) else Field(data, cols[i])
  {
  }

  lemma InsertColumnsDistinct(t: Table)
    ensures NoRepeats(InsertColumns(t))
  {
  }

  lemma NowColumnsDistinct(t: Table)
    ensures NoRepeats(NowColumns(t))
  {
  }

  lemma KeyOnlyInCustomerStatement(t: Table)
    ensures IdColumn(t) in InsertColumns(t) + NowColumns(t) <==> t == Customers
  {
  }

  // ----- What the store does with the statement

  datatype InsertResult = Inserted(key: int, after: Tables) | InsertFailed

  /** Some other row of `t` already holds the value a UNIQUE column of `row` gets
      (`Customers.Email`; the primary keys are checked separately). */
  predicate UniqueClash(s: Tables, t: Table, row: Row)
    requires Complete(s)
  {
    t == Customers && "Email" in row
    && exists k :: k in s[t] && "Email" in s[t][k] && s[t][k]["Email"] == row["Email"]
  }

  /** A foreign-key cell of `row` holds a value that names no parent row. */
  predicate DanglingReference(s: Tables, t: Table, row: Row)
    requires Complete(s)
  {
    exists i :: 0 <= i < |ForeignKeys| && ForeignKeys[i].child == t
      && var fk := ForeignKeys[i];
         fk.column in row && row[fk.column] != NullVal
         && !(row[fk.column].IntVal? && row[fk.column].i in s[fk.parent])
  }

  /** A NOT NULL column of `t` that `cells` leaves out or sets to NULL: strict mode refuses
      both (none of these columns has a DEFAULT). */
  predicate MissingNotNull(t: Table, cells: Row)
  {
    exists i :: 0 <= i < |Columns(t)| && !Columns(t)[i].nullable
      && (Columns(t)[i].field !in cells || cells[Columns(t)[i].field] == NullVal)
  }

  /** The cells an insert assigns: each bound column its value, each `NOW()` column the clock. */
  function Cells(bound: seq<string>, now: seq<string>, vals: seq<Value>, clock: int): Row
    requires |bound| == |vals|
  {
    Assign(Assign(map[], bound, vals), now, seq(|now|, _ => Stamp(clock)))
  }

  /** `connection.execute(INSERT INTO t (bound..., now...) VALUES (?..., NOW()...), params)`
      at time `clock`. mysql2 refuses an `undefined` parameter before sending anything. */
  function ExecInsert(s: Tables, t: Table, bound: seq<string>, now: seq<string>,
                      params: seq<JsValue>, clock: int): (r: InsertResult)
    requires Complete(s)
    ensures r.Inserted? ==> Complete(r.after) && r.key !in s[t]
  {
    if |params| != |bound| || exists i :: 0 <= i < |params| && params[i] == Undefined then InsertFailed
    else match ToValues(params)
      case None => InsertFailed
      case Some(vals) => StoreRow(s, t, Cells(bound, now, vals, clock))
  }

  /** What the store does with the cells of an insert into `t`: strict mode, the primary
      key, the UNIQUE column and the foreign keys, in that order. */
  function StoreRow(s: Tables, t: Table, cells: Row): (r: InsertResult)
    requires Complete(s)
    ensures r.Inserted? ==> Complete(r.after) && r.key !in s[t]
  {
    if MissingNotNull(t, cells) then InsertFailed
    else
      assert Columns(t)[0].field == IdColumn(t) && !Columns(t)[0].nullable;
      var key := cells[IdColumn(t)];
      var row := cells - {IdColumn(t)};
      if !key.IntVal? || key.i in s[t] || UniqueClash(s, t, row) || DanglingReference(s, t, row) then InsertFailed
      else Inserted(key.i, s[t := s[t][key.i := row]])
  }

  /** How an insert whose parameters all bind ends, in terms of the cells it assigns. */
  lemma InsertOfCells(s: Tables, t: Table, bound: seq<string>, now: seq<string>, params: seq<JsValue>, clock: int)
    requires Complete(s) && |params| == |bound| && ToValues(params).Some?
    requires forall i :: 0 <= i < |params| ==> params[i] != Undefined
    ensures var cells := Cells(bound, now, ToValues(params).value, clock);
      var row := cells - {IdColumn(t)};
      var r := ExecInsert(s, t, bound, now, params, clock);
      !MissingNotNull(t, cells) ==>
        IdColumn(t) in cells
        && (r.Inserted? <==> cells[IdColumn(t)].IntVal? && cells[IdColumn(t)].i !in s[t]
                             && !UniqueClash(s, t, row) && !DanglingReference(s, t, row))
        && (r.Inserted? ==> r == Inserted(cells[IdColumn(t)].i, s[t := s[t][cells[IdColumn(t)].i := row]]))
    ensures MissingNotNull(t, Cells(bound, now, ToValues(params).value, clock)) ==>
      ExecInsert(s, t, bound, now, params, clock).InsertFailed?
  {
    var cells := Cells(bound, now, ToValues(params).value, clock);
    assert ExecInsert(s, t, bound, now, params, clock) == StoreRow(s, t, cells);
    StoredRow(s, t, cells);
  }

  lemma StoredRow(s: Tables, t: Table, cells: Row)
    requires Complete(s)
    ensures var row := cells - {IdColumn(t)};
      var r := StoreRow(s, t, cells);
      !MissingNotNull(t, cells) ==>
        IdColumn(t) in cells
        && (r.Inserted? <==> cells[IdColumn(t)].IntVal? && cells[IdColumn(t)].i !in s[t]
                             && !UniqueClash(s, t, row) && !DanglingReference(s, t, row))
        && (r.Inserted? ==> r == Inserted(cells[IdColumn(t)].i, s[t := s[t][cells[IdColumn(t)].i := row]]))
    ensures MissingNotNull(t, cells) ==> StoreRow(s, t, cells).InsertFailed?
  {
    assert Columns(t)[0].field == IdColumn(t) && !Columns(t)[0].nullable;
  }

  /** The add-data statement for table `t`, run with the given next id. */
  function AddStatement(s: Tables, t: Table, data: JsValue, nextId: int, clock: int): InsertResult
    requires Complete(s)
  {
    ExecInsert(s, t, InsertColumns(t), NowColumns(t), InsertValues(t, data, nextId), clock)
  }

  /** The cells an insert assigns are exactly its columns. */
  lemma CellsOfStatement(t: Table, vals: seq<Value>, clock: int)
    requires |vals| == |InsertColumns(t)|
    ensures var cells := Cells(InsertColumns(t), NowColumns(t), vals, clock);
      forall c :: c in cells <==> c in InsertColumns(t) || c in NowColumns(t)
  {
    var bound, now := InsertColumns(t), NowColumns(t);
    StatementsLineUp(t, Undefined, 0);
    var stamps := seq(|now|, _ => Stamp(clock));
    AssignEffect(map[], bound, vals);
    AssignEffect(Assign(map[], bound, vals), now, stamps);
  }

  /** Only the customer statement names its table's primary key, and every primary key is
      NOT NULL without a DEFAULT, so every other table's insert fails. */
  lemma OnlyCustomersInsert(s: Tables, t: Table, data: JsValue, nextId: int, clock: int)
    requires Complete(s) && t != Customers
    ensures AddStatement(s, t, data, nextId, clock).InsertFailed?
  {
    StatementsLineUp(t, data, nextId);
    KeylessInsertFails(s, t, InsertColumns(t), NowColumns(t), InsertValues(t, data, nextId), clock);
  }

  /** An insert whose columns leave out the primary key fails: the key is NOT NULL. */
  lemma KeylessInsertFails(s: Tables, t: Table, bound: seq<string>, now: seq<string>, params: seq<JsValue>, clock: int)
    requires Complete(s) && IdColumn(t) !in bound && IdColumn(t) !in now
    ensures ExecInsert(s, t, bound, now, params, clock).InsertFailed?
  {
    if |params| == |bound| && ToValues(params).Some? {
      var vals := ToValues(params).value;
      var stamps := seq(|now|, _ => Stamp(clock));
      AssignKeeps(map[], bound, vals, IdColumn(t));
      AssignKeeps(Assign(map[], bound, vals), now, stamps, IdColumn(t));
      assert IdColumn(t) !in Cells(bound, now, vals, clock);
      assert Columns(t)[0].field == IdColumn(t) && !Columns(t)[0].nullable;
    }
  }

  /** Every foreign-key column is NOT NULL in the child table. */
  lemma ForeignKeyColumnsNotNull(i: int)
    requires 0 <= i < |ForeignKeys|
    ensures var fk := ForeignKeys[i];
      exists j :: 0 <= j < |Columns(fk.child)| && Columns(fk.child)[j].field == fk.column
                  && !Columns(fk.child)[j].nullable
  {
    var fk := ForeignKeys[i];
    var cs := Columns(fk.child);
    if i == 0 { assert cs[1].field == fk.column; }
    else if i == 1 { assert cs[1].field == fk.column; }
    else if i == 2 { assert cs[2].field == fk.column; }
    else if i == 3 { assert cs[1].field == fk.column; }
    else if i == 4 { assert cs[2].field == fk.column; }
    else if i == 5 { assert cs[1].field == fk.column; }
    else if i == 6 { assert cs[2].field == fk.column; }
    else { assert cs[1].field == fk.column; }
  }

  /** The foreign-key cells of a row that has every NOT NULL column are present and not NULL. */
  lemma NotNullForeignKeys(t: Table, cells: Row)
    requires !MissingNotNull(t, cells)
    ensures forall i :: 0 <= i < |ForeignKeys| && ForeignKeys[i].child == t ==>
      var fk := ForeignKeys[i];
      fk.column in cells - {IdColumn(t)} && cells[fk.column] != NullVal
  {
    forall i | 0 <= i < |ForeignKeys| && ForeignKeys[i].child == t
      ensures ForeignKeys[i].column in cells - {IdColumn(t)} && cells[ForeignKeys[i].column] != NullVal
    {
      ForeignKeyColumnsNotNull(i);
      assert ForeignKeys[i].column != IdColumn(t) by {
        assert Columns(t)[0].field == IdColumn(t);
      }
    }
  }

  /** Adding a row whose foreign-key cells all name existing parents keeps the store intact. */
  lemma AddRowKeepsIntact(s: Tables, t: Table, key: int, row: Row)
    requires Complete(s) && Intact(s) && key !in s[t]
    requires !DanglingReference(s, t, row)
    requires forall i :: 0 <= i < |ForeignKeys| && ForeignKeys[i].child == t ==>
      ForeignKeys[i].column in row && row[ForeignKeys[i].column] != NullVal
    ensures Intact(s[t := s[t][key := row]])
  {
    var r := s[t := s[t][key := row]];
    forall i, k | 0 <= i < |ForeignKeys| && k in r[ForeignKeys[i].child]
      ensures var fk := ForeignKeys[i]; var x: Row := r[fk.child][k];
        fk.column in x && x[fk.column].IntVal? && x[fk.column].i in r[fk.parent]
    {
      var fk := ForeignKeys[i];
      if fk.child == t && k == key {
        assert r[fk.child][k] == row;
      } else {
        assert r[fk.child][k] == s[fk.child][k];
      }
    }
  }

  /** An insert the store accepts keeps every foreign key pointing at an existing row,
      and adds exactly the one row under its fresh key. */
  lemma InsertKeepsIntact(s: Tables, t: Table, bound: seq<string>, now: seq<string>,
                          params: seq<JsValue>, clock: int)
    requires Complete(s) && Intact(s)
    requires ExecInsert(s, t, bound, now, params, clock).Inserted?
    ensures var r := ExecInsert(s, t, bound, now, params, clock);
      Intact(r.after)
      && r.after[t].Keys == s[t].Keys + {r.key}
      && (forall k :: k in s[t] ==> r.after[t][k] == s[t][k])
      && (forall u :: u != t ==> r.after[u] == s[u])
  {
    var r := ExecInsert(s, t, bound, now, params, clock);
    var cells := Cells(bound, now, ToValues(params).value, clock);
    var row := cells - {IdColumn(t)};
    assert r.after == s[t := s[t][r.key := row]] && !MissingNotNull(t, cells) && !DanglingReference(s, t, row);
    NotNullForeignKeys(t, cells);
    AddRowKeepsIntact(s, t, r.key, row);
  }

  /** The request fields a customer insert binds after the id. */
  function CustomerFields(data: JsValue): seq<JsValue>
  {
    [Field(data, "Name"), Field(data, "Email"), Field(data, "PhoneNo"), Field(data, "Address")]
  }

  /** mysql2 can bind every field: none is `undefined` or an object. */
  predicate Bindable(fields: seq<JsValue>)
  {
    forall i :: 0 <= i < |fields| ==> fields[i] != Undefined && ToValue(fields[i]).Some?
  }

  /** The customer row a bindable request stores. */
  function CustomerRow(fields: seq<JsValue>): Row
    requires |fields| == 4 && Bindable(fields)
  {
    map["Name" := ToValue(fields[0]).value, "Email" := ToValue(fields[1]).value,
        "PhoneNo" := ToValue(fields[2]).value, "Address" := ToValue(fields[3]).value]
  }

  /** What the store demands of a new customer's fields: mysql2 binds them all, the three
      NOT NULL ones are not NULL, and no customer has the email yet. */
  predicate CustomerAccepted(s: Tables, fields: seq<JsValue>)
    requires Complete(s) && |fields| == 4
  {
    Bindable(fields) && (forall i :: 0 <= i < 3 ==> ToValue(fields[i]) != Some(NullVal))
    && !UniqueClash(s, Customers, CustomerRow(fields))
  }

  /** The customer statement's parameters, the id followed by the fields, bind exactly
      when the fields do, and then to the id and the fields' values. */
  lemma {:induction false} CustomerBinding(fields: seq<JsValue>, n: int)
    requires |fields| == 4
    ensures var params := [Num(n)] + fields;
      (!(exists i :: 0 <= i < |params| && params[i] == Undefined) && ToValues(params).Some?)
      <==> Bindable(fields)
    ensures Bindable(fields) ==>
      var vals := ToValues([Num(n)] + fields);
      vals.Some? && |vals.value| == 5 && vals.value[0] == IntVal(n)
      && forall i :: 1 <= i < 5 ==> Some(vals.value[i]) == ToValue(fields[i - 1])
  {
    var params := [Num(n)] + fields;
    assert forall i :: 1 <= i < 5 ==> params[i] == fields[i - 1];
    if i :| 0 <= i < 4 && fields[i] == Undefined {
      assert params[i + 1] == Undefined;
    }
    if i :| 0 <= i < |params| && params[i] == Undefined {
      assert i != 0 && fields[i - 1] == Undefined;
    }
    if i :| 0 <= i < 4 && ToValue(fields[i]).None? {
      assert ToValue(params[i + 1]).None?;
    }
  }

  /** The cells of a customer insert: the id under `CustomerID`, the fields under their names. */
  lemma CustomerCellsMap(vals: seq<Value>, clock: int)
    requires |vals| == 5
    ensures Cells(InsertColumns(Customers), NowColumns(Customers), vals, clock)
      == map["CustomerID" := vals[0], "Name" := vals[1], "Email" := vals[2], "PhoneNo" := vals[3], "Address" := vals[4]]
  {
    var bound := InsertColumns(Customers);
    StatementsLineUp(Customers, Undefined, 0);
    AssignEffect(map[], bound, vals);
    var cells := Assign(map[], bound, vals);
    assert Cells(bound, NowColumns(Customers), vals, clock) == cells;
    var m := map["CustomerID" := vals[0], "Name" := vals[1], "Email" := vals[2], "PhoneNo" := vals[3], "Address" := vals[4]];
    assert forall c :: c in cells <==> c in bound;
    assert cells.Keys == m.Keys;
  }

  /** Name, e-mail and phone are NOT NULL, and so is the id; the address is not. */
  lemma CustomerNotNull(vals: seq<Value>)
    requires |vals| == 5
    ensures var m := map["CustomerID" := vals[0], "Name" := vals[1], "Email" := vals[2], "PhoneNo" := vals[3], "Address" := vals[4]];
      MissingNotNull(Customers, m) <==> exists i :: 0 <= i < 4 && vals[i] == NullVal
  {
    var m := map["CustomerID" := vals[0], "Name" := vals[1], "Email" := vals[2], "PhoneNo" := vals[3], "Address" := vals[4]];
    var cs := Columns(Customers);
    assert forall i :: 0 <= i < 5 ==> cs[i].field in m && m[cs[i].field] == vals[i];
    assert forall i :: 0 <= i < 5 ==> (!cs[i].nullable <==> i < 4);
    if i :| 0 <= i < 4 && vals[i] == NullVal {
      assert !cs[i].nullable && m[cs[i].field] == NullVal;
    }
  }

  lemma CustomerCells(vals: seq<Value>, clock: int)
    requires |vals| == 5
    ensures var cells := Cells(InsertColumns(Customers), NowColumns(Customers), vals, clock);
      "CustomerID" in cells && cells["CustomerID"] == vals[0]
      && cells - {"CustomerID"} == map["Name" := vals[1], "Email" := vals[2], "PhoneNo" := vals[3], "Address" := vals[4]]
      && (MissingNotNull(Customers, cells) <==> exists i :: 0 <= i < 4 && vals[i] == NullVal)
  {
    CustomerCellsMap(vals, clock);
    CustomerNotNull(vals);
    var m := map["CustomerID" := vals[0], "Name" := vals[1], "Email" := vals[2], "PhoneNo" := vals[3], "Address" := vals[4]];
    assert m - {"CustomerID"} == map["Name" := vals[1], "Email" := vals[2], "PhoneNo" := vals[3], "Address" := vals[4]];
  }

  /** The cells a customer insert with bindable fields assigns. */
  lemma {:induction false} CustomerStatementCells(fields: seq<JsValue>, n: int, clock: int)
    requires |fields| == 4 && Bindable(fields)
    ensures var params := [Num(n)] + fields;
      |params| == |InsertColumns(Customers)| && ToValues(params).Some?
      && (forall i :: 0 <= i < |params| ==> params[i] != Undefined)
      && var cells := Cells(InsertColumns(Customers), NowColumns(Customers), ToValues(params).value, clock);
         cells - {"CustomerID"} == CustomerRow(fields) && "CustomerID" in cells && cells["CustomerID"] == IntVal(n)
         && (MissingNotNull(Customers, cells) <==> exists i :: 0 <= i < 3 && ToValue(fields[i]) == Some(NullVal))
  {
    CustomerBinding(fields, n);
    var vals := ToValues([Num(n)] + fields).value;
    CustomerCells(vals, clock);
    assert map["Name" := vals[1], "Email" := vals[2], "PhoneNo" := vals[3], "Address" := vals[4]] == CustomerRow(fields);
  }

  /** The insert of a new customer whose fields all bind. */
  lemma {:induction false} InsertBindableCustomer(s: Tables, fields: seq<JsValue>, n: int, clock: int)
    requires Complete(s) && n !in s[Customers] && |fields| == 4 && Bindable(fields)
    ensures var r := ExecInsert(s, Customers, InsertColumns(Customers), NowColumns(Customers), [Num(n)] + fields, clock);
      (r.Inserted? <==> CustomerAccepted(s, fields))
      && (r.Inserted? ==> r.key == n && r.after == s[Customers := s[Customers][n := CustomerRow(fields)]])
  {
    var bound, now, params := InsertColumns(Customers), NowColumns(Customers), [Num(n)] + fields;
    CustomerStatementCells(fields, n, clock);
    var cells := Cells(bound, now, ToValues(params).value, clock);
    var row := CustomerRow(fields);
    assert !DanglingReference(s, Customers, row);
    InsertOfCells(s, Customers, bound, now, params, clock);
  }

  /** A new customer is stored under the next id, which no customer had, with the four
      request fields as its columns; the insert goes through exactly when the store
      accepts the fields. */
  lemma {:induction false} AddCustomer(s: Tables, data: JsValue, clock: int)
    requires Complete(s)
    ensures var n := NextId(MaxKey(s[Customers].Keys));
      var r := AddStatement(s, Customers, data, n, clock);
      (r.Inserted? <==> CustomerAccepted(s, CustomerFields(data)))
      && (r.Inserted? ==> r.key == n && r.after == s[Customers := s[Customers][n := CustomerRow(CustomerFields(data))]])
  {
    var n := NextId(MaxKey(s[Customers].Keys));
    NextIdFresh(s[Customers].Keys);
    var fields := CustomerFields(data);
    assert InsertValues(Customers, data, n) == [Num(n)] + fields;
    CustomerBinding(fields, n);
    if Bindable(fields) {
      InsertBindableCustomer(s, fields, n, clock);
    }
  }
}
