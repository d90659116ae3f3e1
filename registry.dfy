/** The table-name registry of server.js: the eight logical table names a
    client may send, the physical table each stands for, its primary-key
    column, and the four ways the handlers look a name up. */
module Registry {
  import opened Text
  import opened Js

  datatype Table =
    | Customers | Resturants | MenuItems | Orders
    | OrderDetails | DeliveryStaff | Deliveries | Payments

  const AllTables: seq<Table> :=
    [Customers, Resturants, MenuItems, Orders, OrderDetails, DeliveryStaff, Deliveries, Payments]

  lemma AllTablesListed()
    ensures forall t :: t in AllTables
  {
    forall t ensures t in AllTables {
      var i := match t
        case Customers => 0 case Resturants => 1 case MenuItems => 2 case Orders => 3
        case OrderDetails => 4 case DeliveryStaff => 5 case Deliveries => 6 case Payments => 7;
      assert AllTables[i] == t;
    }
  }

  /** The lower-case name clients use (the keys of every map in server.js). */
  function LogicalName(t: Table): string
  {
    match t
    case Customers => "customers"
    case Resturants => "resturants"
    case MenuItems => "menu_items"
    case Orders => "orders"
    case OrderDetails => "order_details"
    case DeliveryStaff => "delivery_staff"
    case Deliveries => "deliveries"
    case Payments => "payments"
  }

  /** The table the DDL creates. */
  function PhysicalName(t: Table): string
  {
    match t
    case Customers => "Customers"
    case Resturants => "Resturants"
    case MenuItems => "MenuItems"
    case Orders => "Orders"
    case OrderDetails => "OrderDetails"
    case DeliveryStaff => "DeliveryStaff"
    case Deliveries => "Deliveries"
    case Payments => "Payments"
  }

  function IdColumn(t: Table): string
  {
    match t
    case Customers => "CustomerID"
    case Resturants => "ResturantID"
    case MenuItems => "MenuItemID"
    case Orders => "OrderID"
    case OrderDetails => "OrderDetailID"
    case DeliveryStaff => "StaffID"
    case Deliveries => "DeliveryID"
    case Payments => "PaymentID"
  }

  /** `tableNameMap` of get-data and delete-data. */
  const TableNameMap: map<string, string> := map[
    "customers" := "Customers", "resturants" := "Resturants", "menu_items" := "MenuItems",
    "orders" := "Orders", "order_details" := "OrderDetails", "delivery_staff" := "DeliveryStaff",
    "deliveries" := "Deliveries", "payments" := "Payments"]

  /** `tableMap` of get-record: physical name and id column. */
  const TableInfoMap: map<string, (string, string)> := map[
    "customers" := ("Customers", "CustomerID"), "resturants" := ("Resturants", "ResturantID"),
    "menu_items" := ("MenuItems", "MenuItemID"), "orders" := ("Orders", "OrderID"),
    "order_details" := ("OrderDetails", "OrderDetailID"), "delivery_staff" := ("DeliveryStaff", "StaffID"),
    "deliveries" := ("Deliveries", "DeliveryID"), "payments" := ("Payments", "PaymentID")]

  /** `idColumnMap` of update-data. */
  const IdColumnMap: map<string, string> := map[
    "customers" := "CustomerID", "resturants" := "ResturantID", "menu_items" := "MenuItemID",
    "orders" := "OrderID", "order_details" := "OrderDetailID", "delivery_staff" := "StaffID",
    "deliveries" := "DeliveryID", "payments" := "PaymentID"]

  /** `validTables` of search-data. */
  const SearchableNames: seq<string> := ["customers", "resturants", "menu_items", "orders"]

  /** The table whose logical name is exactly `name`. */
  function FromLogical(name: string): (r: Option<Table>)
    ensures forall t :: r == Some(t) <==> name == LogicalName(t)
  {
    if name == "customers" then Some(Customers)
    else if name == "resturants" then Some(Resturants)
    else if name == "menu_items" then Some(MenuItems)
    else if name == "orders" then Some(Orders)
    else if name == "order_details" then Some(OrderDetails)
    else if name == "delivery_staff" then Some(DeliveryStaff)
    else if name == "deliveries" then Some(Deliveries)
    else if name == "payments" then Some(Payments)
    else None
  }

  /** The four literal maps in the handlers agree with one another and with the registry. */
  lemma RegistryMapsAgree(name: string)
    ensures name in TableNameMap <==> FromLogical(name).Some?
    ensures name in TableInfoMap <==> FromLogical(name).Some?
    ensures name in IdColumnMap <==> FromLogical(name).Some?
    ensures FromLogical(name).Some? ==>
      var t := FromLogical(name).value;
      TableNameMap[name] == PhysicalName(t) && TableInfoMap[name] == (PhysicalName(t), IdColumn(t))
      && IdColumnMap[name] == IdColumn(t)
  {
  }

  /** get-data and get-record: `map[table.toLowerCase()]`, own keys only. */
  function ResolveAnyCase(name: string): (r: Option<Table>)
    ensures forall t :: r == Some(t) <==> ToLower(name) == LogicalName(t)
  {
    FromLogical(ToLower(name))
  }

  /** update-data and delete-data: `map[table]`, own keys only; a non-string never names a table. */
  function ResolveExact(name: JsValue): (r: Option<Table>)
    ensures forall t :: r == Some(t) <==> name == Str(LogicalName(t))
  {
    if name.Str? then FromLogical(name.s) else None
  }

  /** search-data: `validTables.includes(table)`. */
  function ResolveSearchable(name: string): (r: Option<Table>)
    ensures r.Some? <==> name in SearchableNames
    ensures r.Some? ==> LogicalName(r.value) == name
  {
    if name in SearchableNames then FromLogical(name) else None
  }

  lemma {:induction false} SearchableTables(name: string)
    ensures ResolveSearchable(name).Some? <==>
      exists t :: t in {Customers, Resturants, MenuItems, Orders} && name == LogicalName(t)
  {
    if ResolveSearchable(name).Some? {
      var t := ResolveSearchable(name).value;
      assert t in {Customers, Resturants, MenuItems, Orders};
    }
  }

  /** Whether MySQL takes the identifier `name` to mean table `t`: exactly, or
      ignoring case when the server runs with case-insensitive table names. */
  predicate NameMatches(name: string, t: Table, caseInsensitive: bool)
  {
    if caseInsensitive then ToLower(name) == ToLower(PhysicalName(t)) else name == PhysicalName(t)
  }

  function FirstMatching(name: string, caseInsensitive: bool, candidates: seq<Table>): (r: Option<Table>)
    ensures r.Some? ==> r.value in candidates && NameMatches(name, r.value, caseInsensitive)
    ensures r.None? ==> forall t :: t in candidates ==> !NameMatches(name, t, caseInsensitive)
  {
    if candidates == [] then None
    else if NameMatches(name, candidates[0], caseInsensitive) then Some(candidates[0])
    else FirstMatching(name, caseInsensitive, candidates[1..])
  }

  /** The table a statement's identifier names in the store, if any. */
  function StoreTable(name: string, caseInsensitive: bool): (r: Option<Table>)
    ensures r.Some? ==> NameMatches(name, r.value, caseInsensitive)
    ensures r.None? ==> forall t :: !NameMatches(name, t, caseInsensitive)
  {
    AllTablesListed();
    FirstMatching(name, caseInsensitive, AllTables)
  }

  /** A name made of lower-case letters and underscores is its own lower-case form. */
  lemma {:induction false} LowerFixed(n: string)
    requires forall i :: 0 <= i < |n| ==> !('A' <= n[i] <= 'Z')
    ensures ToLower(n) == n
  {
  }

  function LowerPhysicalName(t: Table): string
  {
    match t
    case Customers => "customers"
    case Resturants => "resturants"
    case MenuItems => "menuitems"
    case Orders => "orders"
    case OrderDetails => "orderdetails"
    case DeliveryStaff => "deliverystaff"
    case Deliveries => "deliveries"
    case Payments => "payments"
  }

  lemma LowerPointwise(p: string, l: string)
    requires |p| == |l| && forall i :: 0 <= i < |p| ==> LowerChar(p[i]) == l[i]
    ensures ToLower(p) == l
  {
  }

  lemma {:induction false} LowerOfPhysical(t: Table)
    ensures ToLower(PhysicalName(t)) == LowerPhysicalName(t)
  {
    match t
    case Customers => LowerPointwise("Customers", "customers");
    case Resturants => LowerPointwise("Resturants", "resturants");
    case MenuItems => LowerPointwise("MenuItems", "menuitems");
    case Orders => LowerPointwise("Orders", "orders");
    case OrderDetails => LowerPointwise("OrderDetails", "orderdetails");
    case DeliveryStaff => LowerPointwise("DeliveryStaff", "deliverystaff");
    case Deliveries => LowerPointwise("Deliveries", "deliveries");
    case Payments => LowerPointwise("Payments", "payments");
  }

  // ----- The lookups as written: a JavaScript object literal also answers
  // ----- for the members every object inherits from Object.prototype.

  /** `if (!tableNameMap[table.toLowerCase()])` of get-data (and get-record's `tableMap`). */
  predicate AnyCaseGuardPassesAsWritten(name: string)
  {
    GetProperty(TableNameMap, ToLower(name)).Found()
  }

  /** `if (!tableNameMap[table])` of delete-data (and update-data's `idColumnMap`). */
  predicate ExactGuardPassesAsWritten(name: JsValue)
  {
    name.Str? && GetProperty(TableNameMap, name.s).Found()
  }

  /** The guards as written let through exactly the table names and the inherited member names. */
  lemma {:induction false} GuardsAsWrittenAdmit(name: string)
    ensures AnyCaseGuardPassesAsWritten(name) <==>
      ResolveAnyCase(name).Some? || ToLower(name) in ObjectPrototypeMembers
    ensures ExactGuardPassesAsWritten(Str(name)) <==>
      ResolveExact(Str(name)).Some? || name in ObjectPrototypeMembers
  {
    RegistryMapsAgree(ToLower(name));
    RegistryMapsAgree(name);
  }

  /** "constructor" is no table, yet it gets past the guards of get-data and delete-data. */
  lemma PrototypeNameGetsPastGuards()
    ensures ResolveAnyCase("Constructor").None? && AnyCaseGuardPassesAsWritten("Constructor")
    ensures ResolveExact(Str("constructor")).None? && ExactGuardPassesAsWritten(Str("constructor"))
  {
    ConstructorIsNoTable();
    LowerPointwise("Constructor", "constructor");
  }

  /** No member of `Object.prototype` is a table's logical name. */
  lemma PrototypeMemberIsNoTable(name: string)
    requires name in ObjectPrototypeMembers
    ensures FromLogical(name).None?
  {
    forall t ensures LogicalName(t) != name {
      assert LogicalName(t)[0] != name[0] || |LogicalName(t)| != |name|;
    }
  }

  lemma ConstructorIsNoTable()
    ensures FromLogical("constructor").None?
  {
    forall t ensures LogicalName(t) != "constructor" {
      assert LogicalName(t)[0] != 'c' || |LogicalName(t)| != 11;
    }
  }

  /** Lower-case logical names are their own lower-case form. */
  lemma {:induction false} LowerOfLogical(t: Table)
    ensures ToLower(LogicalName(t)) == LogicalName(t)
  {
    match t
    case Customers => LowerPointwise("customers", "customers");
    case Resturants => LowerPointwise("resturants", "resturants");
    case MenuItems => LowerPointwise("menu_items", "menu_items");
    case Orders => LowerPointwise("orders", "orders");
    case OrderDetails => LowerPointwise("order_details", "order_details");
    case DeliveryStaff => LowerPointwise("delivery_staff", "delivery_staff");
    case Deliveries => LowerPointwise("deliveries", "deliveries");
    case Payments => LowerPointwise("payments", "payments");
  }

  lemma {:induction false} LogicalVersusLowerPhysical(t: Table, u: Table)
    ensures LogicalName(t) == LowerPhysicalName(u) <==> t !in {MenuItems, OrderDetails, DeliveryStaff} && u == t
  {
    var n, m := LogicalName(t), LowerPhysicalName(u);
    assert n == m ==> n[0] == m[0] && |n| == |m|;
  }

  /** The logical names that update-data and search-data splice into their SQL
      never name the tables MenuItems, OrderDetails and DeliveryStaff; the other
      five name their table only on a server with case-insensitive table names. */
  lemma {:induction false} LogicalNamesInStatements(t: Table, u: Table, caseInsensitive: bool)
    ensures t in {MenuItems, OrderDetails, DeliveryStaff} ==> !NameMatches(LogicalName(t), u, caseInsensitive)
    ensures t !in {MenuItems, OrderDetails, DeliveryStaff} ==>
      (NameMatches(LogicalName(t), u, caseInsensitive) <==> caseInsensitive && u == t)
  {
    if caseInsensitive {
      LowerOfLogical(t);
      LowerOfPhysical(u);
      LogicalVersusLowerPhysical(t, u);
    } else {
      assert LogicalName(t)[0] != PhysicalName(u)[0];
    }
  }
}
