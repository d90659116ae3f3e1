/** The relational store the handlers talk to, reduced to what the generic
    table operations observe: eight tables, each a map from primary key to a
    row of the other columns; the columns the DDL in `initializeDatabase`
    declares; the foreign keys between the tables; and the DELETE statements
    of the cascade in `/api/delete-data`, each read as a plain removal. */
module Store {
  import opened Js
  import opened Registry

  datatype Value = IntVal(i: int) | TextVal(s: string) | Stamp(time: int) | NullVal

  /** A row: its non-key columns. The primary key is the row's key in its table. */
  type Row = map<string, Value>
  type Rows = map<int, Row>
  type Tables = map<Table, Rows>

  /** Every one of the eight tables exists. */
  ghost predicate Complete(s: Tables)
  {
    forall t :: t in s
  }

  /** What mysql2 sends for a bound request value. `None` for an object: mysql2 writes it
      into the statement as `` `key` = value `` text rather than binding it as one value
      (`Endpoints.KeyMatchesAsWritten` follows that text for an id). */
  function ToValue(v: JsValue): Option<Value>
  {
    match v
    case Undefined => Some(NullVal)
    case Null => Some(NullVal)
    case Bool(b) => Some(IntVal(if b then 1 else 0))
    case Num(n) => Some(IntVal(n))
    case Str(s) => Some(TextVal(s))
    case Obj(_) => None
  }

  // ----- The schema (server.js, the CREATE TABLE statements of initializeDatabase)

  /** A column as `SHOW COLUMNS` reports it: its name, its declared type and whether it admits NULL. */
  datatype Column = Column(field: string, sqlType: string, nullable: bool)

  function Columns(t: Table): seq<Column>
  {
    match t
    case Customers =>
      [Column("CustomerID", "int", false), Column("Name", "varchar(20)", false),
       Column("Email", "varchar(30)", false), Column("PhoneNo", "varchar(20)", false),
       Column("Address", "varchar(30)", true)]
    case Resturants =>
      [Column("ResturantID", "int", false), Column("Name", "varchar(20)", false),
       Column("PhoneNo", "varchar(15)", false), Column("CuisineType", "varchar(20)", false),
       Column("Address", "varchar(30)", false)]
    case MenuItems =>
      [Column("MenuItemID", "int", false), Column("ResturantID", "int", false),
       Column("Name", "varchar(20)", false), Column("Description", "text", true),
       Column("Price", "decimal(10,2)", false)]
    case Orders =>
      [Column("OrderID", "int", false), Column("CustomerID", "int", false),
       Column("ResturantID", "int", false), Column("OrderDate", "timestamp", true),
       Column("TotalAmount", "decimal(10,2)", false), Column("Status", "varchar(20)", true)]
    case OrderDetails =>
      [Column("OrderDetailID", "int", false), Column("OrderID", "int", false),
       Column("MenuItemID", "int", false), Column("Quantity", "int", false),
       Column("Price", "decimal(10,2)", false)]
    case DeliveryStaff =>
      [Column("StaffID", "int", false), Column("Name", "varchar(20)", false),
       Column("PhoneNo", "varchar(15)", false), Column("Availability", "varchar(10)", true)]
    case Deliveries =>
      [Column("DeliveryID", "int", false), Column("OrderID", "int", false),
       Column("StaffID", "int", false), Column("DeliveryTime", "timestamp", true),
       Column("DeliveryStatus", "varchar(10)", true)]
    case Payments =>
      [Column("PaymentID", "int", false), Column("OrderID", "int", false),
       Column("TotalAmount", "decimal(10,2)", false), Column("PaymentDate", "timestamp", true),
       Column("PaymentMethod", "varchar(30)", true), Column("PaymentStatus", "varchar(30)", true)]
  }

  predicate HasColumn(t: Table, name: string)
  {
    exists i :: 0 <= i < |Columns(t)| && Columns(t)[i].field == name
  }

  /** The registry's id columns are the DDL's primary keys, each the table's first column,
      and no table declares two columns with one name. */
  lemma SchemaAgreesWithRegistry(t: Table)
    ensures Columns(t) != [] && Columns(t)[0].field == IdColumn(t)
    ensures forall i, j :: 0 <= i < j < |Columns(t)| ==> Columns(t)[i].field != Columns(t)[j].field
  {
  }

  // ----- Foreign keys (the FOREIGN KEY clauses of the DDL)

  datatype ForeignKey = ForeignKey(child: Table, column: string, parent: Table)

  const ForeignKeys: seq<ForeignKey> := [
    ForeignKey(MenuItems, "ResturantID", Resturants),
    ForeignKey(Orders, "CustomerID", Customers),
    ForeignKey(Orders, "ResturantID", Resturants),
    ForeignKey(OrderDetails, "OrderID", Orders),
    ForeignKey(OrderDetails, "MenuItemID", MenuItems),
    ForeignKey(Deliveries, "OrderID", Orders),
    ForeignKey(Deliveries, "StaffID", DeliveryStaff),
    ForeignKey(Payments, "OrderID", Orders)]

  /** `row.column = ?` with the parameter `key`. */
  predicate Refers(row: Row, column: string, key: Option<int>)
  {
    key.Some? && column in row && row[column] == IntVal(key.value)
  }

  /** Every foreign-key cell names an existing parent row. */
  ghost predicate Intact(s: Tables)
    requires Complete(s)
  {
    forall i, k :: 0 <= i < |ForeignKeys| && k in s[ForeignKeys[i].child] ==>
      var fk := ForeignKeys[i];
      var row := s[fk.child][k];
      fk.column in row && row[fk.column].IntVal? && row[fk.column].i in s[fk.parent]
  }

  // ----- The DELETE statements of the cascade

  datatype DeleteStep =
    | DeleteWhere(table: Table, column: string)   // DELETE FROM table WHERE column = ?
    | DeleteDetailsOfOrdersWhere(column: string)  // DELETE od FROM OrderDetails od INNER JOIN Orders o
                                                  //   ON od.OrderID = o.OrderID WHERE o.column = ?
    | DeleteByKey(table: Table)                   // DELETE FROM table WHERE <its id column> = ?

  /** The dependent deletes each case of the `switch` issues before the target delete, in order. */
  function CascadeSteps(t: Table): seq<DeleteStep>
  {
    match t
    case Customers => [DeleteDetailsOfOrdersWhere("CustomerID"), DeleteWhere(Orders, "CustomerID")]
    case Resturants => [DeleteWhere(MenuItems, "ResturantID"), DeleteWhere(Orders, "ResturantID")]
    case MenuItems => [DeleteWhere(OrderDetails, "MenuItemID")]
    case Orders => [DeleteWhere(OrderDetails, "OrderID"), DeleteWhere(Deliveries, "OrderID"), DeleteWhere(Payments, "OrderID")]
    case OrderDetails => []
    case DeliveryStaff => [DeleteWhere(Deliveries, "StaffID")]
    case Deliveries => []
    case Payments => []
  }

  /** The whole transaction body: the dependents, then the target row. */
  function DeletePlan(t: Table): seq<DeleteStep>
  {
    CascadeSteps(t) + [DeleteByKey(t)]
  }

  /** The keys of the orders whose `column` equals `key`. */
  function OrdersWhere(s: Tables, column: string, key: Option<int>): set<int>
    requires Complete(s)
  {
    set o | o in s[Orders] && Refers(s[Orders][o], column, key)
  }

  /** Whether an order detail belongs to one of `orders`. */
  predicate DetailOf(row: Row, orders: set<int>)
  {
    "OrderID" in row && row["OrderID"].IntVal? && row["OrderID"].i in orders
  }

  function ApplyStep(s: Tables, step: DeleteStep, key: Option<int>): (r: Tables)
    requires Complete(s)
    ensures Complete(r)
  {
    match step
    case DeleteWhere(u, column) =>
      s[u := map k | k in s[u] && !Refers(s[u][k], column, key) :: s[u][k]]
    case DeleteDetailsOfOrdersWhere(column) =>
      var orders := OrdersWhere(s, column, key);
      s[OrderDetails := map k | k in s[OrderDetails] && !DetailOf(s[OrderDetails][k], orders) :: s[OrderDetails][k]]
    case DeleteByKey(u) =>
      if key.Some? then s[u := s[u] - {key.value}] else s
  }

  /** `affectedRows` of a step that deletes by primary key. */
  function AffectedByKey(s: Tables, u: Table, key: Option<int>): nat
    requires Complete(s)
  {
    if key.Some? && key.value in s[u] then 1 else 0
  }

  /** The statements run one after another, each seeing the previous ones' effect. */
  function ApplySteps(s: Tables, steps: seq<DeleteStep>, key: Option<int>): (r: Tables)
    requires Complete(s)
    ensures Complete(r)
  {
    if steps == [] then s
    else ApplyStep(ApplySteps(s, steps[..|steps| - 1], key), steps[|steps| - 1], key)
  }

  /** The tables a step may change. */
  function StepTable(step: DeleteStep): Table
  {
    match step
    case DeleteWhere(u, _) => u
    case DeleteDetailsOfOrdersWhere(_) => OrderDetails
    case DeleteByKey(u) => u
  }

  /** The rows one delete of table `t` takes with it, described on the store as
      it was before the transaction: the target row and its dependents, as
      the comments of each `switch` case describe them. */
  ghost predicate Doomed(s: Tables, t: Table, key: Option<int>, u: Table, k: int)
    requires Complete(s) && k in s[u]
  {
    var row := s[u][k];
    (u == t && key == Some(k))
    || match t
       case Customers =>
         (u == Orders && Refers(row, "CustomerID", key))
         || (u == OrderDetails && DetailOf(row, OrdersWhere(s, "CustomerID", key)))
       case Resturants =>
         (u == MenuItems && Refers(row, "ResturantID", key)) || (u == Orders && Refers(row, "ResturantID", key))
       case MenuItems => u == OrderDetails && Refers(row, "MenuItemID", key)
       case Orders => u in {OrderDetails, Deliveries, Payments} && Refers(row, "OrderID", key)
       case DeliveryStaff => u == Deliveries && Refers(row, "StaffID", key)
       case _ => false
  }

  /** One step removes exactly the rows it matches in its own table and changes nothing else. */
  lemma {:induction false} ApplyStepEffect(s: Tables, step: DeleteStep, key: Option<int>)
    requires Complete(s)
    ensures var r := ApplyStep(s, step, key);
      forall u :: u != StepTable(step) ==> r[u] == s[u]
    ensures var r := ApplyStep(s, step, key); var u := StepTable(step);
      r[u].Keys <= s[u].Keys && forall k :: k in r[u] ==> r[u][k] == s[u][k]
  {
  }

  lemma {:induction false} ApplyStepsSnoc(s: Tables, steps: seq<DeleteStep>, x: DeleteStep, key: Option<int>)
    requires Complete(s)
    ensures ApplySteps(s, steps + [x], key) == ApplyStep(ApplySteps(s, steps, key), x, key)
  {
    assert (steps + [x])[..|steps|] == steps;
  }

  lemma {:induction false} ApplyOne(s: Tables, a: DeleteStep, key: Option<int>)
    requires Complete(s)
    ensures ApplySteps(s, [a], key) == ApplyStep(s, a, key)
  {
    ApplyStepsSnoc(s, [], a, key);
    assert [] + [a] == [a];
  }

  lemma {:induction false} ApplyTwo(s: Tables, a: DeleteStep, b: DeleteStep, key: Option<int>)
    requires Complete(s)
    ensures ApplySteps(s, [a, b], key) == ApplyStep(ApplyStep(s, a, key), b, key)
  {
    ApplyOne(s, a, key);
    ApplyStepsSnoc(s, [a], b, key);
    assert [a] + [b] == [a, b];
  }

  lemma {:induction false} ApplyThree(s: Tables, a: DeleteStep, b: DeleteStep, c: DeleteStep, key: Option<int>)
    requires Complete(s)
    ensures ApplySteps(s, [a, b, c], key) == ApplyStep(ApplyStep(ApplyStep(s, a, key), b, key), c, key)
  {
    ApplyTwo(s, a, b, key);
    ApplyStepsSnoc(s, [a, b], c, key);
    assert [a, b] + [c] == [a, b, c];
  }

  lemma {:induction false} ApplyFour(s: Tables, a: DeleteStep, b: DeleteStep, c: DeleteStep, d: DeleteStep, key: Option<int>)
    requires Complete(s)
    ensures ApplySteps(s, [a, b, c, d], key)
      == ApplyStep(ApplyStep(ApplyStep(ApplyStep(s, a, key), b, key), c, key), d, key)
  {
    ApplyThree(s, a, b, c, key);
    ApplyStepsSnoc(s, [a, b, c], d, key);
    assert [a, b, c] + [d] == [a, b, c, d];
  }

  /** `r` holds exactly the rows of `s` that a delete of `key` from `t` does not doom, unchanged. */
  ghost predicate RemovesExactly(s: Tables, t: Table, key: Option<int>, r: Tables)
    requires Complete(s) && Complete(r)
  {
    (forall u, k :: k in r[u] <==> k in s[u] && !Doomed(s, t, key, u, k))
    && (forall u, k :: k in r[u] ==> r[u][k] == s[u][k])
  }

  lemma {:induction false} CustomerPlan(s: Tables, key: Option<int>)
    requires Complete(s)
    ensures RemovesExactly(s, Customers, key, ApplySteps(s, DeletePlan(Customers), key))
  {
    var a, b, c := DeleteDetailsOfOrdersWhere("CustomerID"), DeleteWhere(Orders, "CustomerID"), DeleteByKey(Customers);
    assert DeletePlan(Customers) == [a, b, c];
    ApplyThree(s, a, b, c, key);
    var s1 := ApplyStep(s, a, key);
    var s2 := ApplyStep(s1, b, key);
    var r := ApplyStep(s2, c, key);
    ApplyStepEffect(s, a, key);
    ApplyStepEffect(s1, b, key);
    ApplyStepEffect(s2, c, key);
    assert s1[Orders] == s[Orders];
    assert OrdersWhere(s1, "CustomerID", key) == OrdersWhere(s, "CustomerID", key);
    forall u, k
      ensures (k in r[u] <==> k in s[u] && !Doomed(s, Customers, key, u, k))
      ensures k in r[u] ==> r[u][k] == s[u][k]
    {
      if u == OrderDetails {
        assert r[u] == s1[u];
      } else if u == Orders {
        assert r[u] == s2[u];
      } else if u != Customers {
        assert r[u] == s[u];
      }
    }
  }

  lemma {:induction false} RestaurantPlan(s: Tables, key: Option<int>)
    requires Complete(s)
    ensures RemovesExactly(s, Resturants, key, ApplySteps(s, DeletePlan(Resturants), key))
  {
    var a, b, c := DeleteWhere(MenuItems, "ResturantID"), DeleteWhere(Orders, "ResturantID"), DeleteByKey(Resturants);
    assert DeletePlan(Resturants) == [a, b, c];
    ApplyThree(s, a, b, c, key);
    var s1 := ApplyStep(s, a, key);
    var s2 := ApplyStep(s1, b, key);
    var r := ApplyStep(s2, c, key);
    ApplyStepEffect(s, a, key);
    ApplyStepEffect(s1, b, key);
    ApplyStepEffect(s2, c, key);
    forall u, k
      ensures (k in r[u] <==> k in s[u] && !Doomed(s, Resturants, key, u, k))
      ensures k in r[u] ==> r[u][k] == s[u][k]
    {
      if u == MenuItems {
        assert r[u] == s1[u];
      } else if u == Orders {
        assert r[u] == s2[u] && s1[u] == s[u];
      } else if u != Resturants {
        assert r[u] == s[u];
      }
    }
  }

  lemma {:induction false} MenuItemPlan(s: Tables, key: Option<int>)
    requires Complete(s)
    ensures RemovesExactly(s, MenuItems, key, ApplySteps(s, DeletePlan(MenuItems), key))
  {
    var a, b := DeleteWhere(OrderDetails, "MenuItemID"), DeleteByKey(MenuItems);
    assert DeletePlan(MenuItems) == [a, b];
    ApplyTwo(s, a, b, key);
    var s1 := ApplyStep(s, a, key);
    var r := ApplyStep(s1, b, key);
    ApplyStepEffect(s, a, key);
    ApplyStepEffect(s1, b, key);
    forall u, k
      ensures (k in r[u] <==> k in s[u] && !Doomed(s, MenuItems, key, u, k))
      ensures k in r[u] ==> r[u][k] == s[u][k]
    {
      if u == OrderDetails {
        assert r[u] == s1[u];
      } else if u != MenuItems {
        assert r[u] == s[u];
      }
    }
  }

  lemma {:induction false} OrderPlan(s: Tables, key: Option<int>)
    requires Complete(s)
    ensures RemovesExactly(s, Orders, key, ApplySteps(s, DeletePlan(Orders), key))
  {
    var a, b, c, d := DeleteWhere(OrderDetails, "OrderID"), DeleteWhere(Deliveries, "OrderID"),
      DeleteWhere(Payments, "OrderID"), DeleteByKey(Orders);
    assert DeletePlan(Orders) == [a, b, c, d];
    ApplyFour(s, a, b, c, d, key);
    var s1 := ApplyStep(s, a, key);
    var s2 := ApplyStep(s1, b, key);
    var s3 := ApplyStep(s2, c, key);
    var r := ApplyStep(s3, d, key);
    ApplyStepEffect(s, a, key);
    ApplyStepEffect(s1, b, key);
    ApplyStepEffect(s2, c, key);
    ApplyStepEffect(s3, d, key);
    forall u, k
      ensures (k in r[u] <==> k in s[u] && !Doomed(s, Orders, key, u, k))
      ensures k in r[u] ==> r[u][k] == s[u][k]
    {
      if u == OrderDetails {
        assert r[u] == s1[u];
      } else if u == Deliveries {
        assert r[u] == s2[u] && s1[u] == s[u];
      } else if u == Payments {
        assert r[u] == s3[u] && s2[u] == s[u];
      } else if u != Orders {
        assert r[u] == s[u];
      }
    }
  }

  lemma {:induction false} DeliveryStaffPlan(s: Tables, key: Option<int>)
    requires Complete(s)
    ensures RemovesExactly(s, DeliveryStaff, key, ApplySteps(s, DeletePlan(DeliveryStaff), key))
  {
    var a, b := DeleteWhere(Deliveries, "StaffID"), DeleteByKey(DeliveryStaff);
    assert DeletePlan(DeliveryStaff) == [a, b];
    ApplyTwo(s, a, b, key);
    var s1 := ApplyStep(s, a, key);
    var r := ApplyStep(s1, b, key);
    ApplyStepEffect(s, a, key);
    ApplyStepEffect(s1, b, key);
    forall u, k
      ensures (k in r[u] <==> k in s[u] && !Doomed(s, DeliveryStaff, key, u, k))
      ensures k in r[u] ==> r[u][k] == s[u][k]
    {
      if u == Deliveries {
        assert r[u] == s1[u];
      } else if u != DeliveryStaff {
        assert r[u] == s[u];
      }
    }
  }

  lemma {:induction false} LeafPlan(s: Tables, t: Table, key: Option<int>)
    requires Complete(s) && t in {OrderDetails, Deliveries, Payments}
    ensures RemovesExactly(s, t, key, ApplySteps(s, DeletePlan(t), key))
  {
    assert DeletePlan(t) == [DeleteByKey(t)];
    ApplyOne(s, DeleteByKey(t), key);
    var r := ApplyStep(s, DeleteByKey(t), key);
    ApplyStepEffect(s, DeleteByKey(t), key);
    ViolatesWitness(s, r);
    forall u, k
      ensures (k in r[u] <==> k in s[u] && !Doomed(s, t, key, u, k))
      ensures k in r[u] ==> r[u][k] == s[u][k]
    {
      if u != t {
        assert r[u] == s[u];
      }
    }
  }

  /** A committed delete of `key` from `t` removes exactly the doomed rows, in
      every table, and leaves every surviving row as it was. */
  lemma {:induction false} DeletePlanRemovesExactly(s: Tables, t: Table, key: Option<int>)
    requires Complete(s)
    ensures var r := ApplySteps(s, DeletePlan(t), key);
      forall u, k :: k in r[u] <==> k in s[u] && !Doomed(s, t, key, u, k)
    ensures var r := ApplySteps(s, DeletePlan(t), key);
      forall u, k :: k in r[u] ==> r[u][k] == s[u][k]
  {
    match t
    case Customers => CustomerPlan(s, key);
    case Resturants => RestaurantPlan(s, key);
    case MenuItems => MenuItemPlan(s, key);
    case Orders => OrderPlan(s, key);
    case DeliveryStaff => DeliveryStaffPlan(s, key);
    case _ => LeafPlan(s, t, key);
  }

  /** The dependent deletes never touch the target table, so the target delete
      finds the row exactly when it was there before the transaction began. */
  lemma {:induction false} CascadeLeavesTarget(s: Tables, t: Table, key: Option<int>)
    requires Complete(s)
    ensures ApplySteps(s, CascadeSteps(t), key)[t] == s[t]
  {
    var steps := CascadeSteps(t);
    if |steps| == 1 {
      ApplyOne(s, steps[0], key);
    } else if |steps| == 2 {
      ApplyTwo(s, steps[0], steps[1], key);
      assert steps == [steps[0], steps[1]];
    } else if |steps| == 3 {
      ApplyThree(s, steps[0], steps[1], steps[2], key);
      assert steps == [steps[0], steps[1], steps[2]];
    }
  }

  // ----- Foreign-key enforcement and the outcome of the transaction

  /** `row` refers through `fk` to a parent row that `s` holds and `r` no longer does. */
  predicate Dangles(s: Tables, r: Tables, fk: ForeignKey, row: Row)
    requires Complete(s) && Complete(r)
  {
    fk.column in row && row[fk.column].IntVal?
    && row[fk.column].i in s[fk.parent] && row[fk.column].i !in r[fk.parent]
  }

  /** InnoDB refuses a DELETE that removes a parent row some remaining child row still
      refers to: every FOREIGN KEY clause of the DDL has the default `RESTRICT` action. */
  predicate Violates(s: Tables, r: Tables)
    requires Complete(s) && Complete(r)
  {
    ViolatesFrom(s, r, 0)
  }

  /** Some foreign key from number `i` on has a child row left dangling; InnoDB checks
      them one by one. */
  predicate ViolatesFrom(s: Tables, r: Tables, i: nat)
    requires Complete(s) && Complete(r) && i <= |ForeignKeys|
    decreases |ForeignKeys| - i
  {
    i < |ForeignKeys|
    && ((exists k :: k in r[ForeignKeys[i].child] && Dangles(s, r, ForeignKeys[i], r[ForeignKeys[i].child][k]))
        || ViolatesFrom(s, r, i + 1))
  }

  /** A violation is a child row of some foreign key left dangling. */
  lemma ViolatesWitness(s: Tables, r: Tables)
    requires Complete(s) && Complete(r)
    ensures Violates(s, r) <==>
      exists i, k :: 0 <= i < |ForeignKeys| && k in r[ForeignKeys[i].child]
        && Dangles(s, r, ForeignKeys[i], r[ForeignKeys[i].child][k])
  {
    ViolatesFromWitness(s, r, 0);
  }

  lemma {:induction false} ViolatesFromWitness(s: Tables, r: Tables, i: nat)
    requires Complete(s) && Complete(r) && i <= |ForeignKeys|
    decreases |ForeignKeys| - i
    ensures ViolatesFrom(s, r, i) <==>
      exists j, k :: i <= j < |ForeignKeys| && k in r[ForeignKeys[j].child]
        && Dangles(s, r, ForeignKeys[j], r[ForeignKeys[j].child][k])
  {
    if i < |ForeignKeys| {
      ViolatesFromWitness(s, r, i + 1);
    }
  }

  /** A statement the foreign keys let through keeps an intact store intact. */
  lemma {:induction false} StepPreservesIntact(s: Tables, step: DeleteStep, key: Option<int>)
    requires Complete(s) && Intact(s)
    requires !Violates(s, ApplyStep(s, step, key))
    ensures Intact(ApplyStep(s, step, key))
  {
    var r := ApplyStep(s, step, key);
    ApplyStepEffect(s, step, key);
    ViolatesWitness(s, r);
    forall i, k | 0 <= i < |ForeignKeys| && k in r[ForeignKeys[i].child]
      ensures var fk := ForeignKeys[i]; var row: Row := r[fk.child][k];
        fk.column in row && row[fk.column].IntVal? && row[fk.column].i in r[fk.parent]
    {
      var fk := ForeignKeys[i];
      assert r[fk.child][k] == s[fk.child][k];
      assert !Dangles(s, r, fk, r[fk.child][k]);
    }
  }

  /** How the transaction of `/api/delete-data` ends. */
  datatype Outcome = Committed(after: Tables) | NotFound | Failed

  /** Statement `j` of `steps` throws: an injected fault (a lost connection, a lock wait
      timeout, ...) or the foreign-key check. */
  predicate StepBlocked(s: Tables, steps: seq<DeleteStep>, key: Option<int>, fault: Option<nat>, j: int)
    requires Complete(s) && 0 <= j < |steps|
  {
    var before := ApplySteps(s, steps[..j], key);
    (fault.Some? && fault.value == j) || Violates(before, ApplyStep(before, steps[j], key))
  }

  /** The transaction's outcome on store `s`. Its statements are numbered from 0 in the
      order they run; number `|DeletePlan(t)|` is the COMMIT. A statement that throws rolls
      everything back (500); a target delete that affects no row rolls back too (404). */
  function DeleteOutcome(s: Tables, t: Table, key: Option<int>, fault: Option<nat>): Outcome
    requires Complete(s)
  {
    var plan := DeletePlan(t);
    if exists j :: 0 <= j < |plan| && StepBlocked(s, plan, key, fault, j) then Failed
    else if !(key.Some? && key.value in s[t]) then NotFound
    else if fault.Some? && fault.value == |plan| then Failed
    else Committed(ApplySteps(s, plan, key))
  }

  /** A commit happens only for a row that exists, and removes exactly its doomed rows. */
  lemma {:induction false} CommitRemovesExactly(s: Tables, t: Table, key: Option<int>, fault: Option<nat>)
    requires Complete(s) && DeleteOutcome(s, t, key, fault).Committed?
    ensures key.Some? && key.value in s[t]
    ensures var r := DeleteOutcome(s, t, key, fault).after;
      Complete(r) && RemovesExactly(s, t, key, r)
  {
    DeletePlanRemovesExactly(s, t, key);
  }

  lemma {:induction false} PrefixPreservesIntact(s: Tables, steps: seq<DeleteStep>, key: Option<int>, fault: Option<nat>, i: nat)
    requires Complete(s) && Intact(s) && i <= |steps|
    requires forall j :: 0 <= j < i ==> !StepBlocked(s, steps, key, fault, j)
    ensures Intact(ApplySteps(s, steps[..i], key))
  {
    if i > 0 {
      PrefixPreservesIntact(s, steps, key, fault, i - 1);
      assert !StepBlocked(s, steps, key, fault, i - 1);
      assert steps[..i][..i - 1] == steps[..i - 1];
      StepPreservesIntact(ApplySteps(s, steps[..i - 1], key), steps[i - 1], key);
    }
  }

  /** Since every statement passed the foreign-key check, a committed delete leaves an
      intact store intact. */
  lemma {:induction false} CommitPreservesIntact(s: Tables, t: Table, key: Option<int>, fault: Option<nat>)
    requires Complete(s) && Intact(s) && DeleteOutcome(s, t, key, fault).Committed?
    ensures Intact(DeleteOutcome(s, t, key, fault).after)
  {
    var plan := DeletePlan(t);
    PrefixPreservesIntact(s, plan, key, fault, |plan|);
    assert plan[..|plan|] == plan;
  }

  /** A statement that throws decides the outcome: the transaction fails. */
  lemma {:induction false} BlockedStepFails(s: Tables, t: Table, key: Option<int>, fault: Option<nat>, i: nat)
    requires Complete(s) && i < |DeletePlan(t)|
    requires var before := ApplySteps(s, DeletePlan(t)[..i], key);
      fault == Some(i) || Violates(before, ApplyStep(before, DeletePlan(t)[i], key))
    ensures DeleteOutcome(s, t, key, fault) == Failed
  {
    assert StepBlocked(s, DeletePlan(t), key, fault, i);
  }

  /** When the statements before the target delete have run, the target row is as it was. */
  lemma {:induction false} TargetUntouchedBeforeLastStep(s: Tables, t: Table, key: Option<int>)
    requires Complete(s)
    ensures ApplySteps(s, DeletePlan(t)[..|DeletePlan(t)| - 1], key)[t] == s[t]
  {
    var plan := DeletePlan(t);
    assert plan[..|plan| - 1] == CascadeSteps(t);
    CascadeLeavesTarget(s, t, key);
  }

  /** No statement threw and the target delete affected no row: the transaction ends in a 404. */
  lemma {:induction false} MissingRowNotFound(s: Tables, t: Table, key: Option<int>, fault: Option<nat>)
    requires Complete(s)
    requires forall j :: 0 <= j < |DeletePlan(t)| ==> !StepBlocked(s, DeletePlan(t), key, fault, j)
    requires AffectedByKey(ApplySteps(s, DeletePlan(t)[..|DeletePlan(t)| - 1], key), t, key) == 0
    ensures DeleteOutcome(s, t, key, fault) == NotFound
  {
    TargetUntouchedBeforeLastStep(s, t, key);
  }

  /** No statement threw and the row was there: the COMMIT decides. */
  lemma {:induction false} AllStepsRan(s: Tables, t: Table, key: Option<int>, fault: Option<nat>)
    requires Complete(s)
    requires forall j :: 0 <= j < |DeletePlan(t)| ==> !StepBlocked(s, DeletePlan(t), key, fault, j)
    requires key.Some? && key.value in s[t]
    ensures DeleteOutcome(s, t, key, fault)
      == if fault == Some(|DeletePlan(t)|) then Failed else Committed(ApplySteps(s, DeletePlan(t), key))
  {
  }

  /** The transaction as the handler runs it, from statement `i` on, with `r` the store
      the earlier statements left: a statement that throws ends it in failure, a target
      delete that affects no row in not-found, and after the last statement the COMMIT
      decides. */
  function RunFrom(r: Tables, t: Table, key: Option<int>, fault: Option<nat>, i: nat): Outcome
    requires Complete(r) && i <= |DeletePlan(t)|
    decreases |DeletePlan(t)| - i
  {
    var plan := DeletePlan(t);
    if i == |plan| then (if fault == Some(i) then Failed else Committed(r))
    else
      var next := ApplyStep(r, plan[i], key);
      if fault == Some(i) || Violates(r, next) then Failed
      else if i == |plan| - 1 && AffectedByKey(r, t, key) == 0 then NotFound
      else RunFrom(next, t, key, fault, i + 1)
  }

  /** Running the statements one by one ends as the transaction's outcome says: from any
      point the loop can reach, the rest of the run decides the same outcome. */
  lemma {:induction false} RunFromDecides(s: Tables, t: Table, key: Option<int>, fault: Option<nat>, i: nat)
    requires Complete(s) && i <= |DeletePlan(t)|
    requires forall j :: 0 <= j < i ==> !StepBlocked(s, DeletePlan(t), key, fault, j)
    requires i == |DeletePlan(t)| ==> key.Some? && key.value in s[t]
    ensures RunFrom(ApplySteps(s, DeletePlan(t)[..i], key), t, key, fault, i) == DeleteOutcome(s, t, key, fault)
    decreases |DeletePlan(t)| - i
  {
    var plan := DeletePlan(t);
    var r := ApplySteps(s, plan[..i], key);
    if i == |plan| {
      assert plan[..i] == plan;
      AllStepsRan(s, t, key, fault);
    } else if StepBlocked(s, plan, key, fault, i) {
      BlockedStepFails(s, t, key, fault, i);
    } else {
      RunFromPassed(s, t, key, fault, i);
    }
  }

  /** Statement `i` did not throw: the 404, or the rest of the run decides. */
  lemma {:induction false} RunFromPassed(s: Tables, t: Table, key: Option<int>, fault: Option<nat>, i: nat)
    requires Complete(s) && i < |DeletePlan(t)|
    requires forall j :: 0 <= j <= i ==> !StepBlocked(s, DeletePlan(t), key, fault, j)
    ensures RunFrom(ApplySteps(s, DeletePlan(t)[..i], key), t, key, fault, i) == DeleteOutcome(s, t, key, fault)
    decreases |DeletePlan(t)| - i, 0
  {
    var r := ApplySteps(s, DeletePlan(t)[..i], key);
    RunFromStep(s, t, key, fault, i);
    if i == |DeletePlan(t)| - 1 && AffectedByKey(r, t, key) == 0 {
      MissingRowNotFound(s, t, key, fault);
    } else {
      RunFromDecides(s, t, key, fault, i + 1);
    }
  }

  /** One statement that does not throw: either the 404 or the run goes on with the store
      the statement leaves. Before the target delete the target table is as it was. */
  lemma RunFromStep(s: Tables, t: Table, key: Option<int>, fault: Option<nat>, i: nat)
    requires Complete(s) && i < |DeletePlan(t)| && !StepBlocked(s, DeletePlan(t), key, fault, i)
    ensures var r := ApplySteps(s, DeletePlan(t)[..i], key);
      RunFrom(r, t, key, fault, i)
      == if i == |DeletePlan(t)| - 1 && AffectedByKey(r, t, key) == 0 then NotFound
         else RunFrom(ApplySteps(s, DeletePlan(t)[..i + 1], key), t, key, fault, i + 1)
    ensures i == |DeletePlan(t)| - 1 ==> ApplySteps(s, DeletePlan(t)[..i], key)[t] == s[t]
  {
    var plan := DeletePlan(t);
    var r := ApplySteps(s, plan[..i], key);
    StepNotBlocked(s, plan, key, fault, i);
    RunFromPassingStep(r, t, key, fault, i);
    if i == |plan| - 1 {
      TargetUntouchedBeforeLastStep(s, t, key);
    }
    assert plan[..i + 1] == plan[..i] + [plan[i]];
    ApplyStepsSnoc(s, plan[..i], plan[i], key);
  }

  lemma StepNotBlocked(s: Tables, steps: seq<DeleteStep>, key: Option<int>, fault: Option<nat>, i: nat)
    requires Complete(s) && i < |steps| && !StepBlocked(s, steps, key, fault, i)
    ensures var r := ApplySteps(s, steps[..i], key);
      fault != Some(i) && !Violates(r, ApplyStep(r, steps[i], key))
  {
  }

  /** A statement that does not throw hands the run to the next one, unless it is the
      target delete and it affected no row. */
  lemma RunFromPassingStep(r: Tables, t: Table, key: Option<int>, fault: Option<nat>, i: nat)
    requires Complete(r) && i < |DeletePlan(t)|
    requires fault != Some(i) && !Violates(r, ApplyStep(r, DeletePlan(t)[i], key))
    ensures RunFrom(r, t, key, fault, i)
      == if i == |DeletePlan(t)| - 1 && AffectedByKey(r, t, key) == 0 then NotFound
         else RunFrom(ApplyStep(r, DeletePlan(t)[i], key), t, key, fault, i + 1)
  {
  }

  /** A statement on a table no foreign key points at never trips the foreign-key check. */
  lemma {:induction false} LeafStepAllowed(s: Tables, step: DeleteStep, key: Option<int>)
    requires Complete(s) && StepTable(step) in {OrderDetails, Deliveries, Payments}
    ensures !Violates(s, ApplyStep(s, step, key))
  {
    ApplyStepEffect(s, step, key);
    ViolatesWitness(s, ApplyStep(s, step, key));
  }

  /** The target delete passes the foreign-key check once no child row refers to the key. */
  lemma {:induction false} KeyStepAllowed(s: Tables, t: Table, key: Option<int>)
    requires Complete(s)
    requires forall i, k ::
               0 <= i < |ForeignKeys| && ForeignKeys[i].parent == t && k in s[ForeignKeys[i].child] ==>
                 !Refers(s[ForeignKeys[i].child][k], ForeignKeys[i].column, key)
    ensures !Violates(s, ApplyStep(s, DeleteByKey(t), key))
  {
    var r := ApplyStep(s, DeleteByKey(t), key);
    ApplyStepEffect(s, DeleteByKey(t), key);
    ViolatesWitness(s, r);
    forall i, k | 0 <= i < |ForeignKeys| && k in r[ForeignKeys[i].child]
      ensures !Dangles(s, r, ForeignKeys[i], r[ForeignKeys[i].child][k])
    {
      var fk := ForeignKeys[i];
      if fk.parent == t {
        assert r[fk.child][k] == s[fk.child][k];
      }
    }
  }

  /** No foreign key points at order details, deliveries or payments: deleting an existing
      one, with no fault, always commits. */
  lemma {:induction false} LeafDeleteCommits(s: Tables, t: Table, key: Option<int>)
    requires Complete(s) && t in {OrderDetails, Deliveries, Payments}
    requires key.Some? && key.value in s[t]
    ensures DeleteOutcome(s, t, key, None).Committed?
  {
    var plan := DeletePlan(t);
    assert plan == [DeleteByKey(t)];
    assert plan[..0] == [];
    LeafStepAllowed(s, DeleteByKey(t), key);
    assert !StepBlocked(s, plan, key, None, 0);
  }

  /** The menu-item cascade removes every row that refers to the item: deleting an existing
      item, with no fault, always commits. */
  lemma {:induction false} MenuItemDeleteCommits(s: Tables, key: Option<int>)
    requires Complete(s) && key.Some? && key.value in s[MenuItems]
    ensures DeleteOutcome(s, MenuItems, key, None).Committed?
  {
    var a, b := DeleteWhere(OrderDetails, "MenuItemID"), DeleteByKey(MenuItems);
    var plan := DeletePlan(MenuItems);
    assert plan == [a, b] && plan[..0] == [] && plan[..1] == [a];
    ApplyOne(s, a, key);
    var s1 := ApplyStep(s, a, key);
    LeafStepAllowed(s, a, key);
    KeyStepAllowed(s1, MenuItems, key);
    assert !StepBlocked(s, plan, key, None, 0);
    assert !StepBlocked(s, plan, key, None, 1);
  }

  /** The staff cascade removes every delivery of the staff member, so it always commits. */
  lemma {:induction false} StaffDeleteCommits(s: Tables, key: Option<int>)
    requires Complete(s) && key.Some? && key.value in s[DeliveryStaff]
    ensures DeleteOutcome(s, DeliveryStaff, key, None).Committed?
  {
    var a, b := DeleteWhere(Deliveries, "StaffID"), DeleteByKey(DeliveryStaff);
    var plan := DeletePlan(DeliveryStaff);
    assert plan == [a, b] && plan[..0] == [] && plan[..1] == [a];
    ApplyOne(s, a, key);
    var s1 := ApplyStep(s, a, key);
    LeafStepAllowed(s, a, key);
    KeyStepAllowed(s1, DeliveryStaff, key);
    assert !StepBlocked(s, plan, key, None, 0);
    assert !StepBlocked(s, plan, key, None, 1);
  }

  /** The order cascade removes the order's details, deliveries and payments, so it always commits. */
  lemma {:induction false} OrderDeleteCommits(s: Tables, key: Option<int>)
    requires Complete(s) && key.Some? && key.value in s[Orders]
    ensures DeleteOutcome(s, Orders, key, None).Committed?
  {
    var a, b, c := DeleteWhere(OrderDetails, "OrderID"), DeleteWhere(Deliveries, "OrderID"),
      DeleteWhere(Payments, "OrderID");
    var plan := DeletePlan(Orders);
    assert plan == [a, b, c, DeleteByKey(Orders)];
    assert plan[..0] == [] && plan[..1] == [a] && plan[..2] == [a, b] && plan[..3] == [a, b, c];
    ApplyOne(s, a, key);
    ApplyTwo(s, a, b, key);
    ApplyThree(s, a, b, c, key);
    var s1 := ApplyStep(s, a, key);
    var s2 := ApplyStep(s1, b, key);
    var s3 := ApplyStep(s2, c, key);
    LeafStepAllowed(s, a, key);
    LeafStepAllowed(s1, b, key);
    LeafStepAllowed(s2, c, key);
    OrderCascadeClears(s, key);
    KeyStepAllowed(s3, Orders, key);
    StepPasses(s, plan, key, 0, s);
    StepPasses(s, plan, key, 1, s1);
    StepPasses(s, plan, key, 2, s2);
    StepPasses(s, plan, key, 3, s3);
    NoStepBlocked(s, plan, key);
  }

  /** After a `DELETE FROM u WHERE column = ?` no row of `u` refers to the key. */
  lemma DeleteWhereClears(s: Tables, u: Table, column: string, key: Option<int>)
    requires Complete(s)
    ensures var r := ApplyStep(s, DeleteWhere(u, column), key);
      forall k :: k in r[u] ==> !Refers(r[u][k], column, key)
  {
  }

  /** The three statements of the order cascade leave no child row of the order. */
  lemma OrderCascadeClears(s: Tables, key: Option<int>)
    requires Complete(s)
    ensures var s1 := ApplyStep(s, DeleteWhere(OrderDetails, "OrderID"), key);
      var s2 := ApplyStep(s1, DeleteWhere(Deliveries, "OrderID"), key);
      var s3 := ApplyStep(s2, DeleteWhere(Payments, "OrderID"), key);
      forall i, k :: 0 <= i < |ForeignKeys| && ForeignKeys[i].parent == Orders && k in s3[ForeignKeys[i].child] ==>
        !Refers(s3[ForeignKeys[i].child][k], ForeignKeys[i].column, key)
  {
    var a, b, c := DeleteWhere(OrderDetails, "OrderID"), DeleteWhere(Deliveries, "OrderID"),
      DeleteWhere(Payments, "OrderID");
    var s1 := ApplyStep(s, a, key);
    var s2 := ApplyStep(s1, b, key);
    var s3 := ApplyStep(s2, c, key);
    DeleteWhereClears(s, OrderDetails, "OrderID", key);
    DeleteWhereClears(s1, Deliveries, "OrderID", key);
    DeleteWhereClears(s2, Payments, "OrderID", key);
    ApplyStepEffect(s1, b, key);
    ApplyStepEffect(s2, c, key);
    assert s3[OrderDetails] == s1[OrderDetails] && s3[Deliveries] == s2[Deliveries];
  }

  /** A statement that runs on `before` and passes the foreign-key check does not throw
      when no fault is injected. */
  lemma StepPasses(s: Tables, steps: seq<DeleteStep>, key: Option<int>, j: nat, before: Tables)
    requires Complete(s) && Complete(before) && j < |steps|
    requires ApplySteps(s, steps[..j], key) == before && !Violates(before, ApplyStep(before, steps[j], key))
    ensures !StepBlocked(s, steps, key, None, j)
  {
  }

  lemma NoStepBlocked(s: Tables, steps: seq<DeleteStep>, key: Option<int>)
    requires Complete(s) && |steps| == 4
    requires !StepBlocked(s, steps, key, None, 0) && !StepBlocked(s, steps, key, None, 1)
    requires !StepBlocked(s, steps, key, None, 2) && !StepBlocked(s, steps, key, None, 3)
    ensures !exists j :: 0 <= j < |steps| && StepBlocked(s, steps, key, None, j)
  {
    forall j | 0 <= j < |steps| ensures !StepBlocked(s, steps, key, None, j) {
      assert j in {0, 1, 2, 3};
    }
  }

  /** The customer cascade removes the customer's orders and their details but not their
      deliveries or payments: a customer with an order that has a delivery or a payment
      cannot be deleted; the DELETE FROM Orders statement trips the foreign key and the
      transaction rolls back. */
  lemma {:induction false} CustomerCascadeIncomplete(s: Tables, c: int, o: int, u: Table, d: int)
    requires Complete(s)
    requires o in s[Orders] && Refers(s[Orders][o], "CustomerID", Some(c))
    requires u in {Deliveries, Payments} && d in s[u] && Refers(s[u][d], "OrderID", Some(o))
    ensures DeleteOutcome(s, Customers, Some(c), None) == Failed
  {
    var key := Some(c);
    var a, b := DeleteDetailsOfOrdersWhere("CustomerID"), DeleteWhere(Orders, "CustomerID");
    var plan := DeletePlan(Customers);
    assert plan == [a, b, DeleteByKey(Customers)] && plan[..1] == [a];
    ApplyOne(s, a, key);
    var s1 := ApplyStep(s, a, key);
    var s2 := ApplyStep(s1, b, key);
    assert s1[Orders] == s[Orders] && s1[u] == s[u] && s2[u] == s[u];
    var i := if u == Deliveries then 5 else 7;
    assert ForeignKeys[i] == ForeignKey(u, "OrderID", Orders);
    assert Dangles(s1, s2, ForeignKeys[i], s2[u][d]);
    assert StepBlocked(s, plan, key, None, 1);
  }

  /** The restaurant cascade deletes the restaurant's menu items before anything that refers
      to them: a restaurant with a menu item that appears in an order detail cannot be
      deleted; the first statement already trips the foreign key. */
  lemma {:induction false} RestaurantCascadeIncomplete(s: Tables, r: int, m: int, d: int)
    requires Complete(s)
    requires m in s[MenuItems] && Refers(s[MenuItems][m], "ResturantID", Some(r))
    requires d in s[OrderDetails] && Refers(s[OrderDetails][d], "MenuItemID", Some(m))
    ensures DeleteOutcome(s, Resturants, Some(r), None) == Failed
  {
    var key := Some(r);
    var a := DeleteWhere(MenuItems, "ResturantID");
    var plan := DeletePlan(Resturants);
    assert plan[0] == a && plan[..0] == [];
    var s1 := ApplyStep(s, a, key);
    assert s1[OrderDetails] == s[OrderDetails];
    assert ForeignKeys[4] == ForeignKey(OrderDetails, "MenuItemID", MenuItems);
    assert Dangles(s, s1, ForeignKeys[4], s1[OrderDetails][d]);
    assert StepBlocked(s, plan, key, None, 0);
  }
}
