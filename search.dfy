/** The condition planner of `/api/search-data`: for each column `SHOW COLUMNS`
    reports, a `LIKE ?` condition for text types, an `= ?` condition for numeric
    types when the term reads as a number, nothing otherwise; the conditions are
    joined with ` OR ` and every parameter is `%term%`. */
module Search {
  import opened Text
  import opened Js
  import opened Store

  // ----- `isNaN(term)`: the StringToNumber grammar of ECMA-262 (section 7.1.4.1.1)

  /** The number of decimal digits `s` starts with. */
  function DigitRun(s: string): (n: nat)
    ensures n <= |s|
    ensures forall k :: 0 <= k < n ==> IsDigit(s[k])
    ensures n < |s| ==> !IsDigit(s[n])
  {
    if s != [] && IsDigit(s[0]) then 1 + DigitRun(s[1..]) else 0
  }

  /** Empty, or an ExponentPart: `e` or `E`, an optional sign, one or more digits. */
  predicate OptionalExponent(e: string)
  {
    e == []
    || (|e| >= 2 && (e[0] == 'e' || e[0] == 'E')
        && var d := if e[1] == '+' || e[1] == '-' then e[2..] else e[1..];
           d != [] && AllDigits(d))
  }

  /** StrUnsignedDecimalLiteral: `Infinity`, or digits with an optional fraction, or a
      fraction alone, each with an optional exponent. */
  predicate UnsignedDecimal(t: string)
  {
    t == "Infinity"
    || var n := DigitRun(t);
       if n < |t| && t[n] == '.' then
         var m := DigitRun(t[n + 1..]);
         (n > 0 || m > 0) && OptionalExponent(t[n + 1 + m..])
       else n > 0 && OptionalExponent(t[n..])
  }

  /** StrDecimalLiteral: an optionally signed StrUnsignedDecimalLiteral. */
  predicate DecimalLiteral(t: string)
  {
    if t != [] && (t[0] == '+' || t[0] == '-') then UnsignedDecimal(t[1..]) else UnsignedDecimal(t)
  }

  predicate IsHexDigit(c: char) { IsDigit(c) || 'a' <= c <= 'f' || 'A' <= c <= 'F' }

  /** NonDecimalIntegerLiteral: `0x`, `0o` or `0b` (either case) and one or more digits of that base. */
  predicate NonDecimalInteger(t: string)
  {
    |t| > 2 && t[0] == '0'
    && var ds := t[2..];
       if t[1] == 'x' || t[1] == 'X' then forall k :: 0 <= k < |ds| ==> IsHexDigit(ds[k])
       else if t[1] == 'o' || t[1] == 'O' then forall k :: 0 <= k < |ds| ==> '0' <= ds[k] <= '7'
       else if t[1] == 'b' || t[1] == 'B' then forall k :: 0 <= k < |ds| ==> ds[k] == '0' || ds[k] == '1'
       else false
  }

  /** `!isNaN(term)`: the trimmed term is empty (it reads as 0) or a numeric literal. */
  predicate IsNumeric(term: string)
  {
    var t := Trim(term);
    t == [] || DecimalLiteral(t) || NonDecimalInteger(t)
  }

  /** A string of decimal digits is numeric. */
  lemma DigitsAreNumeric(s: string)
    requires s != [] && AllDigits(s)
    ensures IsNumeric(s)
  {
    assert !IsJsWhitespace(s[0]) && !IsJsWhitespace(s[|s| - 1]);
    assert TrimStart(s) == s;
    assert TrimEnd(s) == s;
    assert DigitRun(s) == |s|;
    assert s[|s|..] == [];
  }

  /** A term that, trimmed, starts with a letter other than `I` is not numeric. */
  lemma WordsAreNotNumeric(term: string)
    requires var t := Trim(term);
      t != [] && ('a' <= t[0] <= 'z' || 'A' <= t[0] <= 'Z') && t[0] != 'I'
    ensures !IsNumeric(term)
  {
    var t := Trim(term);
    assert DigitRun(t) == 0;
    assert t != "Infinity" by { assert "Infinity"[0] == 'I'; }
  }

  // ----- The planner

  /** `columns.find(col => col.Field === name).Type` */
  function FindType(columns: seq<Column>, name: string): (ty: Option<string>)
    ensures ty.None? <==> forall i :: 0 <= i < |columns| ==> columns[i].field != name
  {
    if columns == [] then None
    else if columns[0].field == name then Some(columns[0].sqlType)
    else FindType(columns[1..], name)
  }

  /** With distinct column names, `find` returns a column's own type. */
  lemma {:induction false} FindTypeOfColumn(columns: seq<Column>, i: int)
    requires 0 <= i < |columns|
    requires forall a, b :: 0 <= a < b < |columns| ==> columns[a].field != columns[b].field
    ensures FindType(columns, columns[i].field) == Some(columns[i].sqlType)
  {
    if i > 0 {
      assert columns[0].field != columns[i].field;
      FindTypeOfColumn(columns[1..], i - 1);
      assert columns[1..][i - 1] == columns[i];
    }
  }

  predicate TextLike(ty: string)
  {
    Contains(ty, "char") || Contains(ty, "text") || Contains(ty, "varchar")
  }

  predicate NumericLike(ty: string)
  {
    Contains(ty, "int") || Contains(ty, "decimal") || Contains(ty, "float")
  }

  /** What one column contributes: no condition or one. */
  function ConditionFor(all: seq<Column>, column: string, term: string): (r: seq<string>)
    ensures |r| <= 1
  {
    match FindType(all, column)
    case None => []
    case Some(ty) =>
      if TextLike(ty) then [column + " LIKE ?"]
      else if NumericLike(ty) && IsNumeric(term) then [column + " = ?"]
      else []
  }

  /** Each column's contribution, in column order. */
  function Contributions(all: seq<Column>, term: string): (parts: seq<seq<string>>)
    ensures |parts| == |all| && forall i :: 0 <= i < |parts| ==> |parts[i]| <= 1
  {
    seq(|all|, i requires 0 <= i < |all| => ConditionFor(all, all[i].field, term))
  }

  /** The first `n` parts, one after another. */
  function Flatten(parts: seq<seq<string>>, n: nat): seq<string>
    requires n <= |parts|
  {
    if n == 0 then [] else Flatten(parts, n - 1) + parts[n - 1]
  }

  /** The indices of the first `n` parts that are not empty. */
  function Origins(parts: seq<seq<string>>, n: nat): seq<nat>
    requires n <= |parts|
  {
    if n == 0 then [] else Origins(parts, n - 1) + (if parts[n - 1] != [] then [n - 1] else [])
  }

  /** The conditions contributed by the first `n` columns, in column order. */
  function Conditions(all: seq<Column>, n: nat, term: string): seq<string>
    requires n <= |all|
  {
    Flatten(Contributions(all, term), n)
  }

  /** One more column appends that column's contribution. */
  lemma ConditionsSnoc(all: seq<Column>, n: nat, term: string)
    requires n < |all|
    ensures Conditions(all, n + 1, term) == Conditions(all, n, term) + ConditionFor(all, all[n].field, term)
  {
    assert Contributions(all, term)[n] == ConditionFor(all, all[n].field, term);
  }

  /** The `forEach` over the column names that pushes one condition per searchable column. */
  method PlanConditions(columns: seq<Column>, term: string) returns (conditions: seq<string>)
    ensures conditions == Conditions(columns, |columns|, term)
  {
    conditions := [];
    var i := 0;
    while i < |columns|
      invariant 0 <= i <= |columns|
      invariant conditions == Conditions(columns, i, term)
    {
      ConditionsSnoc(columns, i, term);
      var part := PlanCondition(columns, columns[i].field, term);
      conditions := conditions + part;
      i := i + 1;
    }
  }

  /** The body of that `forEach` for one column: the condition its declared type calls for. */
  method PlanCondition(columns: seq<Column>, column: string, term: string) returns (part: seq<string>)
    ensures part == ConditionFor(columns, column, term)
  {
    part := [];
    var columnType := FindType(columns, column);
    if columnType.Some? {
      if TextLike(columnType.value) {
        part := [column + " LIKE ?"];
      } else if NumericLike(columnType.value) {
        if IsNumeric(term) {
          part := [column + " = ?"];
        }
      }
    }
  }

  /** The indices of the first `n` columns that contribute a condition. */
  function Sources(all: seq<Column>, n: nat, term: string): seq<nat>
    requires n <= |all|
  {
    Origins(Contributions(all, term), n)
  }

  /** The condition a column contributes, decided by its own declared type: text types
      take precedence, numeric types count only for a numeric term. */
  lemma ConditionOfColumn(all: seq<Column>, i: int, term: string)
    requires 0 <= i < |all|
    requires forall a, b :: 0 <= a < b < |all| ==> all[a].field != all[b].field
    ensures var c := all[i];
      ConditionFor(all, c.field, term)
      == if TextLike(c.sqlType) then [c.field + " LIKE ?"]
         else if NumericLike(c.sqlType) && IsNumeric(term) then [c.field + " = ?"]
         else []
  {
    FindTypeOfColumn(all, i);
  }

  /** At most one condition per column, in column order: the `k`-th condition is the one
      contributed by column `Sources[k]`, and the sources strictly increase. */
  lemma {:induction false} ConditionsFollowColumns(all: seq<Column>, n: nat, term: string)
    requires n <= |all|
    ensures |Conditions(all, n, term)| == |Sources(all, n, term)| <= n
    ensures var conds, src := Conditions(all, n, term), Sources(all, n, term);
      forall k :: 0 <= k < |src| ==>
        src[k] < n && ConditionFor(all, all[src[k]].field, term) == [conds[k]]
    ensures var src := Sources(all, n, term);
      forall k, l :: 0 <= k < l < |src| ==> src[k] < src[l]
  {
    var parts := Contributions(all, term);
    OneOriginPerPart(parts, n);
    PartsAtOrigins(parts, n);
    OriginsIncrease(parts, n);
    var conds, src := Conditions(all, n, term), Sources(all, n, term);
    forall k | 0 <= k < |src|
      ensures src[k] < n && ConditionFor(all, all[src[k]].field, term) == [conds[k]]
    {
      assert parts[src[k]] == ConditionFor(all, all[src[k]].field, term);
    }
  }

  lemma {:induction false} OneOriginPerPart(parts: seq<seq<string>>, n: nat)
    requires n <= |parts| && forall i :: 0 <= i < |parts| ==> |parts[i]| <= 1
    ensures |Flatten(parts, n)| == |Origins(parts, n)| <= n
  {
    if n > 0 {
      OneOriginPerPart(parts, n - 1);
    }
  }

  lemma {:induction false} PartsAtOrigins(parts: seq<seq<string>>, n: nat)
    requires n <= |parts| && forall i :: 0 <= i < |parts| ==> |parts[i]| <= 1
    ensures forall k :: 0 <= k < |Origins(parts, n)| && k < |Flatten(parts, n)| ==>
      Origins(parts, n)[k] < n && parts[Origins(parts, n)[k]] == [Flatten(parts, n)[k]]
  {
    if n > 0 {
      PartsAtOrigins(parts, n - 1);
      OneOriginPerPart(parts, n - 1);
      var add := parts[n - 1];
      var flat, src := Flatten(parts, n - 1), Origins(parts, n - 1);
      if add != [] {
        var flat', src' := flat + add, src + [n - 1];
        assert Flatten(parts, n) == flat';
        assert Origins(parts, n) == src';
        assert add == [add[0]];
        forall k | 0 <= k < |src'| && k < |flat'|
          ensures src'[k] < n && parts[src'[k]] == [flat'[k]]
        {
          if k < |src| {
            assert src'[k] == src[k] && flat'[k] == flat[k];
          } else {
            assert src'[k] == n - 1 && flat'[k] == add[0];
          }
        }
      } else {
        assert Flatten(parts, n) == flat;
        assert Origins(parts, n) == src;
      }
    }
  }

  lemma {:induction false} OriginsIncrease(parts: seq<seq<string>>, n: nat)
    requires n <= |parts|
    ensures forall k :: 0 <= k < |Origins(parts, n)| ==> Origins(parts, n)[k] < n
    ensures forall k, l :: 0 <= k < l < |Origins(parts, n)| ==> Origins(parts, n)[k] < Origins(parts, n)[l]
  {
    if n > 0 {
      OriginsIncrease(parts, n - 1);
      var src := Origins(parts, n - 1);
      if parts[n - 1] != [] {
        var src' := src + [n - 1];
        assert Origins(parts, n) == src';
        forall k | 0 <= k < |src'| ensures src'[k] < n {
          if k < |src| { assert src'[k] == src[k]; }
        }
        forall k, l | 0 <= k < l < |src'| ensures src'[k] < src'[l] {
          assert src'[k] == src[k];
          if l < |src| { assert src'[l] == src[l]; }
        }
      } else {
        assert Origins(parts, n) == src;
      }
    }
  }

  /** A part that is not empty leaves the flattening not empty. */
  lemma {:induction false} FlattenNonEmpty(parts: seq<seq<string>>, n: nat, i: nat)
    requires i < n <= |parts| && parts[i] != []
    ensures Flatten(parts, n) != []
  {
    if i < n - 1 {
      FlattenNonEmpty(parts, n - 1, i);
    }
  }

  /** Each column's condition holds exactly one placeholder when its name holds none. */
  lemma ConditionPlaceholders(all: seq<Column>, n: nat, term: string)
    requires n <= |all|
    requires forall i :: 0 <= i < |all| ==> '?' !in all[i].field
    ensures forall k :: 0 <= k < |Conditions(all, n, term)| ==> Count(Conditions(all, n, term)[k], '?') == 1
  {
    var parts := Contributions(all, term);
    forall i, k | 0 <= i < |parts| && 0 <= k < |parts[i]|
      ensures Count(parts[i][k], '?') == 1
    {
      assert parts[i] == ConditionFor(all, all[i].field, term);
      PartPlaceholders(all, i, term);
    }
    FlattenPlaceholders(parts, n);
  }

  lemma PartPlaceholders(all: seq<Column>, i: nat, term: string)
    requires i < |all| && '?' !in all[i].field
    ensures var part := ConditionFor(all, all[i].field, term);
      forall k :: 0 <= k < |part| ==> Count(part[k], '?') == 1
  {
    var c := all[i].field;
    PlaceholderOnce(c, " LIKE ", "?");
    PlaceholderOnce(c, " = ", "?");
    assert " LIKE ?" == " LIKE " + "?" && " = ?" == " = " + "?";
  }

  /** A name without a placeholder, an operator, and one placeholder: one placeholder. */
  lemma PlaceholderOnce(c: string, op: string, q: string)
    requires '?' !in c && '?' !in op && q == "?"
    ensures Count(c + (op + q), '?') == 1
  {
    NoCharNoCount(c, '?');
    NoCharNoCount(op, '?');
    CountAppend(op, q, '?');
    CountAppend(c, op + q, '?');
  }

  lemma {:induction false} FlattenPlaceholders(parts: seq<seq<string>>, n: nat)
    requires n <= |parts|
    requires forall i, k :: 0 <= i < |parts| && 0 <= k < |parts[i]| ==> Count(parts[i][k], '?') == 1
    ensures forall k :: 0 <= k < |Flatten(parts, n)| ==> Count(Flatten(parts, n)[k], '?') == 1
  {
    if n > 0 {
      FlattenPlaceholders(parts, n - 1);
      var flat := Flatten(parts, n - 1);
      assert Flatten(parts, n) == flat + parts[n - 1];
      forall k | 0 <= k < |Flatten(parts, n)| ensures Count(Flatten(parts, n)[k], '?') == 1 {
        if k >= |flat| {
          assert Flatten(parts, n)[k] == parts[n - 1][k - |flat|];
        }
      }
    }
  }

  // ----- The statement

  const NoSearchableColumns := "No searchable columns found"

  /** `searchConditions.map(() => `%${term}%`)` */
  function SearchParams(count: nat, term: string): (params: seq<string>)
    ensures |params| == count && forall k :: 0 <= k < count ==> params[k] == "%" + term + "%"
  {
    seq(count, _ => "%" + term + "%")
  }

  function SearchSql(table: string, conditions: seq<string>): string
  {
    "SELECT * FROM " + table + " WHERE " + Join(conditions, " OR ")
  }

  /** The statement carries exactly one placeholder per parameter, provided neither the
      table name nor a column name holds a `?`. */
  lemma SearchPlaceholdersMatchParams(table: string, all: seq<Column>, term: string)
    requires '?' !in table
    requires forall i :: 0 <= i < |all| ==> '?' !in all[i].field
    requires Conditions(all, |all|, term) != []
    ensures var conds := Conditions(all, |all|, term);
      Count(SearchSql(table, conds), '?') == |SearchParams(|conds|, term)|
  {
    var conds := Conditions(all, |all|, term);
    ConditionPlaceholders(all, |all|, term);
    JoinOnes(conds, " OR ", '?');
    var prefix := "SELECT * FROM " + table + " WHERE ";
    var a, b := "SELECT * FROM ", " WHERE ";
    assert forall k :: 0 <= k < |a| ==> a[k] != '?';
    assert forall k :: 0 <= k < |b| ==> b[k] != '?';
    NoCharInThree(a, table, b, '?');
    assert SearchSql(table, conds) == prefix + Join(conds, " OR ");
    CountAppend(prefix, Join(conds, " OR "), '?');
  }
}
