/** `/api/update-data`: the statement built from the request's data object
    (`UPDATE <table> SET k1 = ?, k2 = ? WHERE <id column> = ?` with the values
    in key order followed by the id), and what the store does with it. */
module Update {
  import opened Text
  import opened Js
  import opened Registry
  import opened Store

  // ----- The statement

  function Keys(entries: seq<(string, JsValue)>): (keys: seq<string>)
    ensures |keys| == |entries| && forall i :: 0 <= i < |entries| ==> keys[i] == entries[i].0
  {
    seq(|entries|, i requires 0 <= i < |entries| => entries[i].0)
  }

  function Values(entries: seq<(string, JsValue)>): (values: seq<JsValue>)
    ensures |values| == |entries| && forall i :: 0 <= i < |entries| ==> values[i] == entries[i].1
  {
    seq(|entries|, i requires 0 <= i < |entries| => entries[i].1)
  }

  /** `Object.keys(data).map(key => `${key} = ?`)` */
  function SetFields(keys: seq<string>): seq<string>
  {
    seq(|keys|, i requires 0 <= i < |keys| => keys[i] + " = ?")
  }

  /** The statement text, with the table name as the request gave it. */
  function UpdateSql(table: string, idColumn: string, entries: seq<(string, JsValue)>): string
  {
    "UPDATE " + table + " SET " + Join(SetFields(Keys(entries)), ", ") + " WHERE " + idColumn + " = ?"
  }

  /** `[...Object.values(data), id]` */
  function UpdateParams(entries: seq<(string, JsValue)>, id: JsValue): seq<JsValue>
  {
    Values(entries) + [id]
  }

  lemma {:induction false} SetFieldPlaceholders(keys: seq<string>)
    requires forall i :: 0 <= i < |keys| ==> '?' !in keys[i]
    ensures forall i :: 0 <= i < |keys| ==> Count(SetFields(keys)[i], '?') == 1
  {
    forall i | 0 <= i < |keys|
      ensures Count(SetFields(keys)[i], '?') == 1
    {
      NoCharNoCount(keys[i], '?');
      NoCharNoCount(" = ", '?');
      CountAppend(keys[i], " = ?", '?');
      CountAppend(" = ", "?", '?');
      assert " = ?" == " = " + "?";
    }
  }

  lemma NoPlaceholderAfter(idColumn: string)
    requires '?' !in idColumn
    ensures Count(" WHERE " + idColumn + " = ?", '?') == 1
  {
    var a, b := " WHERE ", " = ";
    assert forall k :: 0 <= k < |a| ==> a[k] != '?';
    assert forall k :: 0 <= k < |b| ==> b[k] != '?';
    NoCharInThree(a, idColumn, b, '?');
    CountAppend(a + idColumn + b, "?", '?');
    assert a + idColumn + " = ?" == a + idColumn + b + "?";
  }

  /** The statement has one placeholder per parameter (the id's included, even for an empty
      data object), as long as no name in it holds a `?`. */
  lemma UpdatePlaceholdersMatchParams(table: string, idColumn: string, entries: seq<(string, JsValue)>, id: JsValue)
    requires '?' !in table && '?' !in idColumn
    requires forall i :: 0 <= i < |entries| ==> '?' !in entries[i].0
    ensures Count(UpdateSql(table, idColumn, entries), '?') == |UpdateParams(entries, id)|
  {
    var fields := SetFields(Keys(entries));
    var head, tail := "UPDATE " + table + " SET ", " WHERE " + idColumn + " = ?";
    var a, b := "UPDATE ", " SET ";
    assert forall k :: 0 <= k < |a| ==> a[k] != '?';
    assert forall k :: 0 <= k < |b| ==> b[k] != '?';
    NoCharInThree(a, table, b, '?');
    NoPlaceholderAfter(idColumn);
    NoCharNoCount(", ", '?');
    if fields != [] {
      SetFieldPlaceholders(Keys(entries));
      SumCountsOnes(fields, '?');
      CountJoin(fields, ", ", '?');
    }
    assert UpdateSql(table, idColumn, entries) == head + Join(fields, ", ") + tail;
    CountAppend(head, Join(fields, ", "), '?');
    CountAppend(head + Join(fields, ", "), tail, '?');
  }

  /** Placeholder `i` of the SET list is bound to the `i`-th value, in the data object's key
      order, and the last placeholder, the WHERE clause's, to the id. */
  lemma UpdateBindsInKeyOrder(entries: seq<(string, JsValue)>, id: JsValue)
    ensures var params := UpdateParams(entries, id);
      |params| == |SetFields(Keys(entries))| + 1
      && (forall i :: 0 <= i < |entries| ==>
            SetFields(Keys(entries))[i] == entries[i].0 + " = ?" && params[i] == entries[i].1)
      && params[|entries|] == id
  {
  }

  // ----- What the store does with it

  /** The column `key` names: MySQL compares column names without regard to case. */
  function ColumnNamed(columns: seq<Column>, key: string): (r: Option<string>)
    ensures r.Some? ==> exists i :: 0 <= i < |columns| && columns[i].field == r.value
                                    && ToLower(columns[i].field) == ToLower(key)
    ensures r.None? ==> forall i :: 0 <= i < |columns| ==> ToLower(columns[i].field) != ToLower(key)
  {
    if columns == [] then None
    else if ToLower(columns[0].field) == ToLower(key) then Some(columns[0].field)
    else ColumnNamed(columns[1..], key)
  }

  /** The columns the SET list names, or `None` when one of its names is no column. */
  function ResolveColumns(columns: seq<Column>, keys: seq<string>): (r: Option<seq<string>>)
    ensures r.Some? ==>
              |r.value| == |keys| && forall i :: 0 <= i < |keys| ==> ColumnNamed(columns, keys[i]) == Some(r.value[i])
    ensures r.None? ==> exists i :: 0 <= i < |keys| && ColumnNamed(columns, keys[i]).None?
  {
    if keys == [] then Some([])
    else match ColumnNamed(columns, keys[0])
      case None => None
      case Some(c) =>
        match ResolveColumns(columns, keys[1..])
        case None => None
        case Some(rest) => Some([c] + rest)
  }

  function ToValues(vs: seq<JsValue>): (r: Option<seq<Value>>)
    ensures r.Some? ==> |r.value| == |vs| && forall i :: 0 <= i < |vs| ==> ToValue(vs[i]) == Some(r.value[i])
    ensures r.None? ==> exists i :: 0 <= i < |vs| && ToValue(vs[i]).None?
  {
    if vs == [] then Some([])
    else match ToValue(vs[0])
      case None => None
      case Some(v) =>
        match ToValues(vs[1..])
        case None => None
        case Some(rest) => Some([v] + rest)
  }

  /** The assignments of a SET list, left to right. */
  function Assign(row: Row, cols: seq<string>, vals: seq<Value>): Row
    requires |cols| == |vals|
    decreases |cols|
  {
    if cols == [] then row else Assign(row[cols[0] := vals[0]], cols[1..], vals[1..])
  }

  /** A column the SET list does not name keeps its old value, or stays absent. */
  lemma {:induction false} AssignKeeps(row: Row, cols: seq<string>, vals: seq<Value>, c: string)
    requires |cols| == |vals| && c !in cols
    decreases |cols|
    ensures var r := Assign(row, cols, vals);
      (c in r <==> c in row) && (c in row ==> r[c] == row[c])
  {
    if cols != [] {
      assert c !in cols[1..] && c != cols[0];
      AssignKeeps(row[cols[0] := vals[0]], cols[1..], vals[1..], c);
    }
  }

  /** Assignment `i` that no later assignment overrides decides its column. */
  lemma {:induction false} AssignAt(row: Row, cols: seq<string>, vals: seq<Value>, i: nat)
    requires |cols| == |vals| && i < |cols| && cols[i] !in cols[i + 1..]
    decreases i
    ensures var r := Assign(row, cols, vals);
      cols[i] in r && r[cols[i]] == vals[i]
  {
    var first := row[cols[0] := vals[0]];
    if i == 0 {
      AssignKeeps(first, cols[1..], vals[1..], cols[0]);
    } else {
      assert cols[1..][i - 1] == cols[i] && vals[1..][i - 1] == vals[i];
      assert cols[1..][i..] == cols[i + 1..];
      AssignAt(first, cols[1..], vals[1..], i - 1);
    }
  }

  /** Each assigned column ends up holding the value of its last assignment, and every
      other column keeps its old one. */
  lemma AssignLastWins(row: Row, cols: seq<string>, vals: seq<Value>)
    requires |cols| == |vals|
    ensures var r := Assign(row, cols, vals);
      forall i :: 0 <= i < |cols| && cols[i] !in cols[i + 1..] ==> cols[i] in r && r[cols[i]] == vals[i]
    ensures var r := Assign(row, cols, vals);
      forall c :: c !in cols ==> (c in r <==> c in row) && (c in row ==> r[c] == row[c])
  {
    forall i | 0 <= i < |cols| && cols[i] !in cols[i + 1..]
      ensures var r := Assign(row, cols, vals); cols[i] in r && r[cols[i]] == vals[i]
    {
      AssignAt(row, cols, vals, i);
    }
    forall c | c !in cols
      ensures var r := Assign(row, cols, vals); (c in r <==> c in row) && (c in row ==> r[c] == row[c])
    {
      AssignKeeps(row, cols, vals, c);
    }
  }

  /** With distinct columns, each assigned column ends up holding its own value, and every
      other column keeps its old one. */
  lemma AssignEffect(row: Row, cols: seq<string>, vals: seq<Value>)
    requires |cols| == |vals|
    requires forall i, j :: 0 <= i < j < |cols| ==> cols[i] != cols[j]
    ensures var r := Assign(row, cols, vals);
      (forall i :: 0 <= i < |cols| ==> cols[i] in r && r[cols[i]] == vals[i])
      && (forall c :: c !in cols ==> (c in r <==> c in row) && (c in row ==> r[c] == row[c]))
  {
    forall i | 0 <= i < |cols|
      ensures cols[i] !in cols[i + 1..]
    {
      var later := cols[i + 1..];
      assert forall j :: 0 <= j < |later| ==> later[j] == cols[i + 1 + j];
    }
    AssignLastWins(row, cols, vals);
  }

  /** A NOT NULL column of `t` that `row` holds NULL in: strict mode refuses the statement. */
  predicate NullInNotNull(t: Table, row: Row)
  {
    exists i :: 0 <= i < |Columns(t)| && !Columns(t)[i].nullable
      && Columns(t)[i].field in row && row[Columns(t)[i].field] == NullVal
  }

  /** The SET list writes into `row`, the new row `key` of `t`, an e-mail some other customer
      already has: the UNIQUE index on `Customers.Email` refuses the statement. */
  predicate EmailTaken(s: Tables, t: Table, key: int, cols: seq<string>, row: Row)
    requires Complete(s)
  {
    t == Customers && "Email" in cols && "Email" in row
    && exists k :: k in s[t] && k != key && "Email" in s[t][k] && s[t][k]["Email"] == row["Email"]
  }

  datatype UpdateResult = Updated(affected: nat, after: Tables) | UpdateFailed

  /** The store runs `UPDATE <name> SET <keys> = ? ... WHERE <idColumn> = ?` with `params`.
      It fails when `name` is no table, the SET list is empty (a syntax error), a key names
      no column, a value cannot be bound, or the SET list names the primary key (the model
      does not re-key rows); and, for the row the WHERE clause matches, when the new row
      holds NULL in a NOT NULL column or another customer's e-mail. `affected` counts the
      rows the WHERE clause matches. */
  function ExecUpdate(s: Tables, name: string, keys: seq<string>, idColumn: string,
                      params: seq<JsValue>, caseInsensitiveNames: bool): (r: UpdateResult)
    requires Complete(s)
    ensures r.Updated? ==> Complete(r.after)
  {
    match StoreTable(name, caseInsensitiveNames)
    case None => UpdateFailed
    case Some(t) =>
      if keys == [] || |params| != |keys| + 1 || ColumnNamed(Columns(t), idColumn) != Some(IdColumn(t)) then UpdateFailed
      else match ResolveColumns(Columns(t), keys)
        case None => UpdateFailed
        case Some(cols) =>
          if IdColumn(t) in cols || ToValue(params[|keys|]).None? then UpdateFailed
          else match ToValues(params[..|keys|])
            case None => UpdateFailed
            case Some(vals) =>
              ApplyUpdate(s, t, cols, vals, SqlKey(params[|keys|]))
  }

  /** The rewrite of the one row the WHERE clause matches, if any. */
  function ApplyUpdate(s: Tables, t: Table, cols: seq<string>, vals: seq<Value>, key: Option<int>): (r: UpdateResult)
    requires Complete(s) && |cols| == |vals|
    ensures r.Updated? ==> Complete(r.after)
  {
    if key.None? || key.value !in s[t] then Updated(0, s)
    else
      var row := Assign(s[t][key.value], cols, vals);
      if NullInNotNull(t, row) || EmailTaken(s, t, key.value, cols, row) then UpdateFailed
      else Updated(1, s[t := s[t][key.value := row]])
  }

  /** An update matches at most the one row the key names, rewrites only that row, and
      leaves every other table and row as it was; matching nothing changes nothing. The row
      it matches becomes the row the SET list assigns, which holds no NULL in a NOT NULL
      column and no other customer's e-mail. */
  lemma UpdateChangesOnlyTheRow(s: Tables, name: string, keys: seq<string>, idColumn: string,
                                params: seq<JsValue>, caseInsensitiveNames: bool)
    requires Complete(s)
    requires ExecUpdate(s, name, keys, idColumn, params, caseInsensitiveNames).Updated?
    ensures var res := ExecUpdate(s, name, keys, idColumn, params, caseInsensitiveNames);
      var t := StoreTable(name, caseInsensitiveNames).value;
      var key := SqlKey(params[|keys|]);
      res.affected <= 1
      && (res.affected == 0 <==> !(key.Some? && key.value in s[t]))
      && (res.affected == 0 ==> res.after == s)
      && (forall u :: u != t ==> res.after[u] == s[u])
      && res.after[t].Keys == s[t].Keys
      && (forall k :: k in s[t] && Some(k) != key ==> res.after[t][k] == s[t][k])
    ensures var res := ExecUpdate(s, name, keys, idColumn, params, caseInsensitiveNames);
      var t := StoreTable(name, caseInsensitiveNames).value;
      var key := SqlKey(params[|keys|]);
      var cols := ResolveColumns(Columns(t), keys).value;
      var vals := ToValues(params[..|keys|]).value;
      key.Some? && key.value in s[t] ==>
        |cols| == |vals| && res.after[t][key.value] == Assign(s[t][key.value], cols, vals)
        && !NullInNotNull(t, res.after[t][key.value])
        && !EmailTaken(s, t, key.value, cols, res.after[t][key.value])
  {
    var t := StoreTable(name, caseInsensitiveNames).value;
    var cols := ResolveColumns(Columns(t), keys).value;
    var vals := ToValues(params[..|keys|]).value;
    assert ExecUpdate(s, name, keys, idColumn, params, caseInsensitiveNames)
      == ApplyUpdate(s, t, cols, vals, SqlKey(params[|keys|]));
    RewriteChangesOnlyTheRow(s, t, cols, vals, SqlKey(params[|keys|]));
  }

  lemma RewriteChangesOnlyTheRow(s: Tables, t: Table, cols: seq<string>, vals: seq<Value>, key: Option<int>)
    requires Complete(s) && |cols| == |vals| && ApplyUpdate(s, t, cols, vals, key).Updated?
    ensures var res := ApplyUpdate(s, t, cols, vals, key);
      res.affected <= 1
      && (res.affected == 0 <==> !(key.Some? && key.value in s[t]))
      && (res.affected == 0 ==> res.after == s)
      && (forall u :: u != t ==> res.after[u] == s[u])
      && res.after[t].Keys == s[t].Keys
      && (forall k :: k in s[t] && Some(k) != key ==> res.after[t][k] == s[t][k])
    ensures var res := ApplyUpdate(s, t, cols, vals, key);
      key.Some? && key.value in s[t] ==>
        res.after[t][key.value] == Assign(s[t][key.value], cols, vals)
        && !NullInNotNull(t, res.after[t][key.value])
        && !EmailTaken(s, t, key.value, cols, res.after[t][key.value])
  {
  }

  /** Only a case-insensitive store ever runs the update, and never for `menu_items`,
      `order_details` or `delivery_staff`: the statement names the logical table. */
  lemma UpdateNeedsCaseInsensitiveNames(s: Tables, t: Table, keys: seq<string>, params: seq<JsValue>,
                                        caseInsensitiveNames: bool)
    requires Complete(s)
    requires ExecUpdate(s, LogicalName(t), keys, IdColumn(t), params, caseInsensitiveNames).Updated?
    ensures caseInsensitiveNames && t !in {MenuItems, OrderDetails, DeliveryStaff}
    ensures StoreTable(LogicalName(t), caseInsensitiveNames) == Some(t)
  {
    var u := StoreTable(LogicalName(t), caseInsensitiveNames).value;
    LogicalNamesInStatements(t, u, caseInsensitiveNames);
  }
}
