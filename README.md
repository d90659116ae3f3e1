# Food-delivery back end: the generic table operations, as a verified model

The server (`server.js`) is an Express application over a MySQL database of eight
tables: Customers, Resturants (the schema's own spelling), MenuItems, Orders,
OrderDetails, DeliveryStaff, Deliveries and Payments. Besides log-in and sign-up it
offers one set of table-generic endpoints, and this project models that layer:

- `/api/get-data`, `/api/get-record`, `/api/search-data`, `/api/update-data`,
  `/api/delete-data` and `/api/add-data`;
- the table-name maps each of them consults;
- the search-condition planner;
- the UPDATE builder;
- the cascade DELETE run in a transaction;
- the add-data INSERT statements with the "largest id + 1" customer id;
- the input checks: `validatePassword`, the e-mail pattern, the required-field guards,
  the bearer-token gate `requireAuth`, and the "must start with select" guard on
  generated SQL.

The files, in dependency order:

| file | module | what it holds |
|---|---|---|
| `text.dfy` | `Text` | `toLowerCase`, `trim`, `split`, `join`, `includes`, character counts |
| `js.dfy` | `Js` | request values, truthiness, property lookup through `Object.prototype`, how a bound id compares with an integer key |
| `registry.dfy` | `Registry` | the eight tables, their logical, physical and id-column names, the handlers' maps and lookups, how MySQL resolves a table name in a statement |
| `store.dfy` | `Store` | the store (a map from table to rows keyed by id), the schema, the foreign keys, the delete cascade and the transaction's outcome |
| `http.dfy` | `Http` | responses: a status and a JSON body |
| `validation.dfy` | `Validation` | `validatePassword`, the e-mail check, the sign-up guards, `requireAuth`, the select guard |
| `search.dfy` | `Search` | `isNaN`, the column-type tests, the condition planner, the search statement |
| `update.dfy` | `Update` | the UPDATE statement and its effect on the store |
| `add.dfy` | `Insert` | the add-data INSERT statements, the next id and the effect of an insert on the store |
| `endpoints.dfy` | `Endpoints` | class `Database` with one member per endpoint |

The store is a `class Database` whose `tables` field the update, delete and add
endpoints reassign. The delete endpoint works like the source:

- It takes a snapshot of the tables.
- It runs the statements of the table's cascade one at a time.
- It restores the snapshot when a statement throws or the target row is missing.

Which statement throws for reasons outside the model (a lost connection, a lock
timeout) is the parameter `fault`. The foreign-key check is modelled: every FOREIGN KEY
clause of the schema has MySQL's default `RESTRICT` action, so a DELETE that would
leave a child row pointing at a missing parent throws. The model proves that the
customer cascade and the restaurant cascade do not remove every referring row:

- A customer whose order has a delivery or a payment cannot be deleted.
- A restaurant whose menu item appears in an order detail cannot be deleted.

The model keeps several behaviours of the source as they are:

- search-data and update-data splice the request's lower-case logical name (such as
  `menu_items`) into their SQL, while the schema creates `MenuItems`. Such a statement
  finds its table only on a server that compares table names without regard to case.
  It never finds `menu_items`, `order_details` or `delivery_staff`, whose physical
  names differ by more than case. Whether the server compares without regard to case is
  the `caseInsensitiveNames` field.
- The schema declares every id as `INT NOT NULL UNIQUE` without `AUTO_INCREMENT`. Only
  the customer INSERT supplies an id, so, with the server in strict SQL mode, add-data
  can succeed only for customers.
  Its `id` answer is `insertId`, which is 0 when no `AUTO_INCREMENT` column exists.
- `/api/delete-data` is behind `requireAuth` in the source (`server.js:1117`);
  `/api/add-data` is not. The model follows that.
- An update whose data object is empty builds `SET  WHERE ...`. MySQL refuses that
  statement, so the answer is a 500, not a 400.

## Model

| member | source | states |
|---|---|---|
| `Text.ToLower` | server.js:928 | `toLowerCase` keeps the length and lower-cases each ASCII capital, leaving every other character alone |
| `Text.TrimStart` | server.js:377 | the result is a suffix of the input that starts with no white space, and everything dropped is white space |
| `Text.TrimEnd` | server.js:377 | the result is a prefix of the input that ends with no white space, and everything dropped is white space |
| `Text.Split` | server.js:63 | `split(' ')` gives one piece more than there are separators, and no piece holds the separator |
| `Text.CountJoin` | server.js:995 | `join(sep)` adds exactly the separators' occurrences of a character to those of the parts |
| `Js.MissingRequired` | server.js:201 | the guard `!a \|\| !b \|\| ...` fires exactly when some required value is falsy |
| `Js.GetProperty` | server.js:928 | `map[key]` on an object literal is found exactly for an own key or an `Object.prototype` member, and is own exactly for an own key |
| `Js.Field` | server.js:446 | `data.Name` is `undefined` exactly when the request object holds no entry under that key, and otherwise the value of the last such entry, as `JSON.parse` keeps it |
| `Js.SqlKey` | server.js:1043 | a number id compares as itself, a string of digits with an optional sign as its value; `undefined`, `null` and the model's objects match no key |
| `Registry.AllTablesListed` | server.js:917-926 | the registry lists every table |
| `Registry.FromLogical` | server.js:917-926 | a name resolves to table `t` exactly when it is `t`'s logical name |
| `Registry.RegistryMapsAgree` | server.js:1020-1029 | `tableNameMap`, `tableMap` and `idColumnMap` have the same eight keys, and agree on the physical name and id column of each |
| `Registry.ResolveAnyCase` | server.js:928-931 | get-data and get-record find table `t` exactly when the lower-cased name is `t`'s logical name |
| `Registry.ResolveExact` | server.js:1085-1087 | update-data and delete-data find table `t` exactly when the name is the string of `t`'s logical name |
| `Registry.ResolveSearchable` | server.js:961-964 | search-data admits exactly the four names of its allow-list, each naming its own table |
| `Registry.SearchableTables` | server.js:961 | the searchable tables are Customers, Resturants, MenuItems and Orders |
| `Registry.StoreTable` | server.js:970 | the table a statement's identifier names is one the identifier matches, and `None` means it matches none |
| `Registry.GuardsAsWrittenAdmit` | server.js:928-931 | the guards as written let through the table names and also every `Object.prototype` member name |
| `Registry.PrototypeMemberIsNoTable` | server.js:1085-1087 | no `Object.prototype` member name is a table's logical name |
| `Registry.PrototypeNameGetsPastGuards` | server.js:1136-1139 | `constructor` names no table, yet passes the guards of get-data and delete-data |
| `Registry.LogicalNamesInStatements` | server.js:1095 | the logical name in the SQL names the table only when names compare without regard to case, and never for `menu_items`, `order_details` or `delivery_staff` |
| `Store.SchemaAgreesWithRegistry` | server.js:674-781 | each table's first column is the registry's id column, and no table has two columns with one name |
| `Store.ApplyStepEffect` | server.js:1171 | a DELETE removes rows only from its own table and changes no surviving row |
| `Store.DeletePlanRemovesExactly` | server.js:1148-1256 | running a table's statements removes exactly the target row and the dependents its case lists, and leaves every other row unchanged |
| `Store.CascadeLeavesTarget` | server.js:1149-1161 | the dependent deletes never touch the target table, so the target DELETE sees the row as it was |
| `Store.StepPreservesIntact` | server.js:707 | a statement the foreign keys let through keeps every reference pointing at an existing row |
| `Store.CommitRemovesExactly` | server.js:1258 | a commit happens only for an existing row, and removes exactly the doomed rows |
| `Store.PrefixPreservesIntact` | server.js:1148-1256 | while no statement throws, each prefix of the cascade keeps the store intact |
| `Store.CommitPreservesIntact` | server.js:1258 | a committed delete leaves an intact store intact |
| `Store.BlockedStepFails` | server.js:1260-1262 | a statement that throws makes the transaction fail |
| `Store.TargetUntouchedBeforeLastStep` | server.js:1161-1163 | before the target DELETE runs, the target table is as it was at the snapshot |
| `Store.MissingRowNotFound` | server.js:1163-1166 | when no statement threw and the target DELETE affected no row, the outcome is not-found |
| `Store.AllStepsRan` | server.js:1258-1259 | when every statement ran and the row existed, the COMMIT decides between failure and commit |
| `Store.ViolatesWitness` | server.js:700-781 | a statement trips a foreign key exactly when some child row it leaves refers to a parent row it removed |
| `Store.RunFromDecides` | server.js:1145-1262 | running the statements one at a time from any point the loop reaches, the rest of the run ends as the transaction's outcome says |
| `Store.RunFromPassingStep` | server.js:1161-1166 | a statement that does not throw hands the run to the next statement, unless it is the target DELETE and it affected no row, which ends in not-found |
| `Store.LeafStepAllowed` | server.js:1218 | deleting from OrderDetails, Deliveries or Payments never trips a foreign key |
| `Store.KeyStepAllowed` | server.js:1231 | the target DELETE passes the foreign-key check once no child row refers to the key |
| `Store.LeafDeleteCommits` | server.js:1217-1255 | deleting an existing order detail, delivery or payment commits when nothing throws |
| `Store.MenuItemDeleteCommits` | server.js:1185-1196 | deleting an existing menu item commits when nothing throws |
| `Store.StaffDeleteCommits` | server.js:1226-1237 | deleting an existing staff member commits when nothing throws |
| `Store.OrderDeleteCommits` | server.js:1198-1215 | deleting an existing order commits when nothing throws |
| `Store.CustomerCascadeIncomplete` | server.js:1149-1167 | deleting a customer with an order that has a delivery or a payment fails |
| `Store.RestaurantCascadeIncomplete` | server.js:1169-1183 | deleting a restaurant with a menu item that an order detail refers to fails |
| `Validation.Utf16Length` | server.js:137 | `password.length` counts at least one and at most two units per character |
| `Validation.ValidatePassword` | server.js:130-154 | the errors are the messages of the failed rules in rule order, and `isValid` holds exactly when there are none, that is, when all four rules hold |
| `Validation.RuleMessageInjective` | server.js:137-147 | no two rules share a message |
| `Validation.OneMessagePerFailedRule` | server.js:136-148 | each distinct rule's message appears once if the rule failed and not at all otherwise |
| `Validation.PasswordErrorsExact` | server.js:136-148 | the errors name exactly the failed rules, each once |
| `Validation.FailedMessagesInRuleOrder` | server.js:136-148 | of two failed rules, the earlier rule's message comes first |
| `Validation.MessageOfFailedRule` | server.js:136-148 | every failed rule's message is among the errors |
| `Validation.EmailCheckSound` | server.js:206-207 | an address the check accepts matches `^[^\s@]+@[^\s@]+\.[^\s@]+$` |
| `Validation.EmailCheckComplete` | server.js:206-207 | an address that matches the pattern is accepted |
| `Validation.EmailCheckMatchesPattern` | server.js:510-511 | the check accepts exactly the matching addresses |
| `Validation.RegistrationGate` | server.js:201-218 | missing fields give 400 "All fields are required", then a bad address 400 "Invalid email format", then a weak password 400 with the rule messages; the request passes exactly when all three checks pass |
| `Validation.SignupGate` | server.js:197-218 | sign-up passes exactly when its five fields are present, the address is valid and the password acceptable |
| `Validation.AdminSignupGate` | server.js:501-522 | admin sign-up passes exactly when its three fields are present, the address is valid and the password acceptable |
| `Validation.BearerToken` | server.js:63 | the token is a header field without spaces |
| `Validation.NoSpaceNoToken` | server.js:63-66 | a header without a space yields no token |
| `Validation.BearerTokenOf` | server.js:63 | `scheme token` and `scheme token rest` yield `token` |
| `Validation.RequireAuth` | server.js:62-75 | a request passes exactly when it carries a non-empty token that verifies; otherwise the answer is a 401 |
| `Validation.LowerStartsWithSelect` | server.js:378 | a lower-cased text starts with `select` exactly when its first six characters spell it in any case |
| `Validation.TrimmedEnds` | server.js:377 | the trimmed text has no white space at either end |
| `Validation.SelectGuardAccepts` | server.js:376-380 | the guard passes exactly the answers that, trimmed, start with `select` in any case, and what it passes has no white space at either end |
| `Search.DigitsAreNumeric` | server.js:985 | a string of decimal digits is numeric for `isNaN` |
| `Search.WordsAreNotNumeric` | server.js:985 | a term whose trimmed form starts with a letter other than the start of `Infinity` is not numeric |
| `Search.FindType` | server.js:979 | `columns.find(...)` finds no type exactly when no column has that name |
| `Search.FindTypeOfColumn` | server.js:979 | with distinct names, the type found for a column is its own |
| `Search.ConditionFor` | server.js:981-988 | a column contributes at most one condition |
| `Search.PlanConditions` | server.js:975-989 | the `forEach` loop builds exactly the condition list of the planner |
| `Search.ConditionOfColumn` | server.js:981-988 | a column gives `LIKE` when its type is text-like, `=` when it is numeric and the term is numeric, and nothing otherwise; the text test wins |
| `Search.ConditionsFollowColumns` | server.js:977-989 | the conditions are in column order, one per contributing column |
| `Search.ConditionPlaceholders` | server.js:982-986 | each condition holds exactly one placeholder |
| `Search.SearchPlaceholdersMatchParams` | server.js:974-1000 | the statement holds exactly as many placeholders as there are parameters |
| `Update.SetFieldPlaceholders` | server.js:1094 | each `key = ?` holds one placeholder |
| `Update.NoPlaceholderAfter` | server.js:1095 | ` WHERE idColumn = ?` holds one placeholder |
| `Update.UpdatePlaceholdersMatchParams` | server.js:1094-1098 | the statement holds one placeholder per parameter, the id's included |
| `Update.UpdateBindsInKeyOrder` | server.js:1094-1098 | placeholder `i` of the SET list is bound to the `i`-th value, and the last to the id |
| `Update.ColumnNamed` | server.js:1095 | a key names a column of the table, compared without regard to case, or none |
| `Update.ResolveColumns` | server.js:1095 | every key names a column, in order, or some key names none |
| `Update.ToValues` | server.js:1098 | the parameters bind value for value, or some parameter cannot bind |
| `Update.AssignLastWins` | server.js:1094-1098 | after `SET c1 = ?, c2 = ?, ...`, a column holds the value of its last assignment, and a column the list does not name keeps its cell |
| `Update.AssignEffect` | server.js:1095 | with distinct columns, each assigned column holds its value and every other cell is unchanged |
| `Update.ExecUpdate` | server.js:1100 | an update the store accepts leaves a store with every table |
| `Update.UpdateChangesOnlyTheRow` | server.js:1094-1104 | at most one row is affected; none exactly when the id names no row, and then nothing changes; otherwise only that row changes, it becomes the old row with the SET list assigned, and it holds no NULL in a NOT NULL column and no e-mail of another customer |
| `Update.UpdateNeedsCaseInsensitiveNames` | server.js:1095 | an update runs only on a case-insensitive server, and never for `menu_items`, `order_details` or `delivery_staff` |
| `Insert.MaxKey` | server.js:442 | `MAX(CustomerID)` is `NULL` exactly for an empty table, and is otherwise an existing id no smaller than any other |
| `Insert.NextIdFresh` | server.js:443 | the next id is larger than every existing id, is no existing id, and is 1 on an empty table |
| `Insert.StatementsLineUp` | server.js:439-482 | each statement's values line up with its columns, its columns are distinct, and only the customer statement names its table's id |
| `Insert.ExecInsert` | server.js:488 | an accepted insert adds a row under a key the table did not have |
| `Insert.StoreRow` | server.js:488 | a row the store accepts goes in under a key its table did not have, and every table stays present |
| `Insert.CellsOfStatement` | server.js:439-482 | a statement assigns exactly its bound columns and its `NOW()` columns |
| `Insert.OnlyCustomersInsert` | server.js:449-482 | every statement but the customer one leaves out a NOT NULL id, so it fails |
| `Insert.ForeignKeyColumnsNotNull` | server.js:700-781 | every foreign-key column is NOT NULL |
| `Insert.NotNullForeignKeys` | server.js:700-781 | a row that has every NOT NULL column has every foreign-key cell, none of them NULL |
| `Insert.AddRowKeepsIntact` | server.js:488 | a new row whose references name existing rows keeps the store intact |
| `Insert.InsertKeepsIntact` | server.js:488 | an accepted insert keeps the store intact, adds exactly its key to its table and changes no other row |
| `Insert.CustomerBinding` | server.js:445-446 | the customer parameters bind exactly when the four request fields do |
| `Insert.CustomerCells` | server.js:445-446 | the customer cells miss a NOT NULL column exactly when the id, name, e-mail or phone is NULL |
| `Insert.CustomerStatementCells` | server.js:445-446 | a bindable customer insert stores the next id and the four fields, and misses a NOT NULL column exactly when name, e-mail or phone is NULL |
| `Insert.InsertBindableCustomer` | server.js:445-488 | a new customer is stored exactly when the store accepts the fields, and then under the given id |
| `Insert.AddCustomer` | server.js:440-489 | the customer is stored under the next id, exactly when the fields bind, name, e-mail and phone are not NULL and the e-mail is new |
| `Endpoints.QueryValue` | server.js:910 | a query parameter is truthy exactly when it is present and not empty |
| `Endpoints.Guard` | server.js:1120-1122 | the request passes exactly when authentication passes and nothing required is missing; otherwise a 401, or a 400 with the handler's message |
| `Endpoints.PrototypeNameDeletesNothing` | server.js:1136-1259 | as written, `constructor` reaches no case of the `switch`, and the request is answered with success |
| `Endpoints.DispatchAgreesOffPrototype` | server.js:1136-1148 | for every other name, the guard as written sends a request to its table's case or refuses it |
| `Endpoints.MissingOfTwo` | server.js:956 | the two-field guard fires exactly when one of the two is falsy |
| `Endpoints.ConditionsUpTo` | server.js:977-989 | a column that contributes a condition makes the list non-empty |
| `Endpoints.VarcharIsText` | server.js:981 | the schema's `varchar(20)` type is text-like, since it contains `char` |
| `Endpoints.SearchableTablesHaveConditions` | server.js:991-993 | every searchable table has a text column, so "No searchable columns found" never happens |
| `Endpoints.TableNamesWithoutPlaceholder` | server.js:974 | no logical table name holds a placeholder |
| `Endpoints.NoPlaceholderInNames` | server.js:974-986 | no name a search statement splices in holds a placeholder |
| `Endpoints.SearchStatementBindsAll` | server.js:974-1000 | the search statement of every searchable table has conditions, and exactly one parameter per placeholder |
| `Endpoints.Database.constructor` | server.js:674-781 | a database starts from a store that has every table |
| `Endpoints.Database.GetData` | server.js:909-938 | a 200 exactly when authentication passes and the name resolves in any case, with every row of that table; 401 and 400 otherwise |
| `Endpoints.Database.GetDataAsWritten` | server.js:928-949 | as written, the answer agrees with `GetData` for every name that is not a prototype member |
| `Endpoints.Database.GetRecordAsWritten` | server.js:1031-1043 | as written, the answer agrees with `GetRecord` for every name whose lower-case form is not a prototype member |
| `Endpoints.Database.GetRecord` | server.js:1012-1053 | a 200 exactly when the name resolves and the id names a row, with that row; otherwise the guard's 401, or its 400 "Table name and record ID are required", then 400 "Invalid table name" for a name that resolves in no case, then 404 "Record not found" for an id that names no row |
| `Endpoints.Database.SearchData` | server.js:953-1002 | a 200 exactly when the name is on the allow-list, the store finds the table and the table yields conditions, and then the statement and its parameters; otherwise the guard's 401, or its 400 "Table name and search term are required", then 400 "Invalid table name" off the allow-list, then 500 "Failed to search data" when the store finds no such table |
| `Endpoints.Database.UpdateData` | server.js:1066-1113 | the guard's 401 or 400 first, then 400 for an unknown name; otherwise a 500 when the store refuses the statement, 404 when no row matches and 200 when one does, and then the new store is the store's own result of the statement, in which only that row changed; any other answer leaves the store unchanged |
| `Endpoints.UpdateAgreesOffPrototype` | server.js:1085-1104 | for every name that is not an `Object.prototype` member and every id that is not an object, update-data as written gives the answer of the corrected handler |
| `Endpoints.ScalarUpdateAgrees` | server.js:1094-1100 | for an id that is not an object, the statement as written, with the id written into it, has the effect of the statement the corrected handler runs |
| `Endpoints.ObjectIdUpdatesEveryRow` | server.js:1094-1100 | as written, the id `{"CustomerID": 1}` selects every customer: each row gets the new name, the affected count is the number of customers, and the answer is 200 "Record updated successfully" |
| `Endpoints.PrototypeNameUpdateFails` | server.js:1085-1095 | as written, a member name such as `toString` gets past `idColumnMap[table]` and the statement fails with 500, where the corrected handler answers 400 |
| `Endpoints.Database.DeleteData` | server.js:1117-1270 | the answer and the new store are those of the transaction's outcome: a commit answers 200 with the rows removed, a missing row answers the table's 404, and a throw answers 500, both with the store unchanged; an intact store stays intact |
| `Endpoints.RunStatement` | server.js:1149-1256 | one statement of the cascade either throws or, as the target DELETE, affects no row, and then its answer is that of the transaction run from there; or it hands the run on, which ends as the run from that statement does |
| `Endpoints.Database.RunDeletePlan` | server.js:1145-1262 | the loop over the statements answers with the transaction's outcome and leaves the store it commits, or the snapshot when the run rolls back |
| `Endpoints.Database.AddData` | server.js:425-497 | missing values give 400, an unknown table 500 "Invalid table name", any other table than customers 500; a customer is added under the next id exactly when the store accepts the fields; an intact store stays intact |
| `Endpoints.PrototypeNameRecordFails` | server.js:1031-1043 | as written, `table=Constructor` reaches the database in get-record and ends in a 500; the corrected handler answers 400 |
| `Endpoints.KeyMatchesAsWritten` | server.js:1095-1100 | as written, `WHERE <id column> = ?` selects only existing rows; a scalar id selects at most the row under its own key, and an object id is no SQL unless it has exactly one key |
| `Endpoints.ObjectIdMatchesEveryRow` | server.js:1249 | as written, the id `{"PaymentID": 1}` selects every payment, so delete-data empties the table and answers with success |
| `Endpoints.ObjectIdChangesNothing` | server.js:1100 | in the corrected model an object id commits no delete and fails every update |
| `Endpoints.PrototypeNameFetchFails` | server.js:928-949 | as written, `table=Constructor` ends in a 500; the model refuses it with a 400 |
| `Endpoints.CommitPreservesIntactWhen` | server.js:1258 | a committed delete keeps an intact store intact |
| `Endpoints.InsertKeepsIntactWhen` | server.js:488 | an accepted add keeps an intact store intact |

## Left out

- Express routing, the static pages, sessions and cookies. So are the log-in endpoints and
  the sign-up endpoints' database work after their input checks.
- `jwt.verify` is the boolean `tokenAccepted`; `bcrypt` is not part of this model.
- The Gemini call and the running of generated SQL. Only the select guard is modelled.
- The connection pool and `getConnection` failures. Nothing is concurrent here, so the
  race between two inserts that read the same largest id is not modelled either.
- `initializeDatabase` is not part of this model, beyond the schema it creates. The
  model enforces column names, NULL-ability, the UNIQUE e-mail and the foreign keys. It
  keeps the declared types only for the search planner and does not enforce them.
- DEFAULT values: every statement either binds or stamps each column the model checks.
- `Insert.OnlyCustomersInsert`: the server is taken to run in strict SQL mode, where an
  INSERT that omits a NOT NULL column without a default fails (`Insert.MissingNotNull`).
  Outside strict mode MySQL stores the implicit default (0 for an `INT` id) with a
  warning, and then the non-customer statements of add-data succeed. The add-data
  answers of `Endpoints.Database.AddData` depend on this too.
- `Validation.RegistrationGate`: the sign-up `email` and `password` are modelled as
  strings. A JSON number password such as `12345678` is outside the model; in the
  source `password.length` is then undefined and no length message is produced.
- The `details` field of 500 answers and the log output.
- JSON numbers: numbers are integers, so no decimal prices and no floating point.
- Arrays anywhere in a request are not modelled. An array `table` such as
  `["customers"]` would pass delete-data's guard and reach no case of its `switch`, and
  an array `id` is written as a list.
- Objects in a request are modelled only as a body `id`: as written, through
  `KeyMatchesAsWritten`, for update-data (`ExecUpdateAsWritten`) and for delete-data on
  order details, deliveries and payments (`LeafDeleteAsWritten`). Object query parameters
  such as `?id[PaymentID]=1`, object values inside the data object and non-object data
  values are not.
- `Endpoints.LeafDeleteAsWritten`: covers only the tables whose case is one DELETE. The
  cascades of customers, restaurants, menu items, orders and delivery staff are not
  modelled with an object id as written. There every statement's `WHERE ... = ?` takes
  the same `(<column> = <column>) = 1` form: `{"table": "delivery_staff", "id":
  {"StaffID": 1}}` deletes every delivery that has a staff member and then every staff
  member (server.js:1228-1231).
- The rows a search returns. The `LIKE` matching and its collation are left out; the
  model returns the statement and parameters the handler runs.
- `Text.ToLower`: only ASCII letters are lower-cased; JavaScript lower-cases all of Unicode.
- `Js.SqlKey`: a string id other than an optionally signed string of digits matches no
  key. MySQL converts such strings by their numeric prefix (`'12abc'` and `' 12'` match
  12, `'1e2'` matches 100, `'abc'` matches 0).
- `Endpoints.KeyMatchesAsWritten`: a text or timestamp column named in an object id, or a value
  that is no integer key, is taken to select no row; MySQL would compare numerically.
- `Update.ExecUpdate`: foreign keys are not checked on UPDATE. An update that names the
  id column fails rather than moving the row to a new key. Declared types and VARCHAR
  widths are not checked, and e-mails compare exactly rather than under MySQL's
  case-insensitive collation.
- `Update.ExecUpdate`: a data key is resolved only as a bare column name, compared
  without regard to case. The source splices each key into the SQL as raw text, and
  MySQL also runs keys such as `` `Name` ``, `customers.Name`, `" Name"` or
  `"Name = 'x', Email"` (an injected assignment). The model refuses these with a 500,
  where the handler answers 200.
- `Insert.StoreRow`: does not refuse a value longer than its VARCHAR width, and compares
  e-mails exactly rather than under MySQL's case-insensitive collation, so it accepts some
  rows MySQL refuses.
- `Insert.CustomerAccepted`: the same two refusals are missing from the customer check.
- `Insert.AddCustomer`: a customer whose fields exceed their widths, or whose e-mail
  differs from a stored one only in case, is taken to be stored.
- `Endpoints.Database.AddData`: answers 200 in the two cases above, where MySQL refuses
  the row and the handler answers 500.
- `Endpoints.Database.SearchData`: the answer carries the statement, not the rows it selects.

## Findings

| source | as written | input that shows it | evidently intended | confidence | as-written member | corrected member |
|---|---|---|---|---|---|---|
| server.js:1136-1148 | `tableNameMap[table]` also finds `Object.prototype` members, and the `switch` has no `default` | `{ "table": "constructor", "id": 1 }` to `/api/delete-data` | refuse with 400 "Invalid table name" | high, not executed | `Endpoints.PrototypeNameDeletesNothing` | `Endpoints.Database.DeleteData` |
| server.js:928-931 | `tableNameMap[table.toLowerCase()]` also finds `Object.prototype` members | `GET /api/get-data?table=Constructor` | refuse with 400 "Invalid table name" | medium, not executed | `Endpoints.PrototypeNameFetchFails` | `Endpoints.Database.GetData` |
| server.js:1031-1035 | `tableMap[table.toLowerCase()]` also finds `Object.prototype` members | `GET /api/get-record?table=Constructor&id=1` | refuse with 400 "Invalid table name" | medium, not executed | `Endpoints.PrototypeNameRecordFails` | `Endpoints.Database.GetRecord` |
| server.js:1085-1087 | `idColumnMap[table]` also finds `Object.prototype` members | `{ "table": "toString", "id": 1, "data": { "Name": "x" } }` to `/api/update-data` | refuse with 400 "Invalid table name" | medium, not executed | `Endpoints.PrototypeNameUpdateFails` | `Endpoints.Database.UpdateData` |
| server.js:1249 | `connection.query` writes an object id as `` `key` = value ``, so `WHERE PaymentID = ?` becomes `(PaymentID = PaymentID) = 1` | `{ "table": "payments", "id": { "PaymentID": 1 } }` to `/api/delete-data` | treat the id as a value: delete at most one row | high, not executed | `Endpoints.ObjectIdMatchesEveryRow` | `Endpoints.ObjectIdChangesNothing` |
| server.js:1094-1100 | the object id is written as `` `CustomerID` = 1 ``, so `WHERE CustomerID = ?` becomes `(CustomerID = CustomerID) = 1` | `{ "table": "customers", "id": { "CustomerID": 1 }, "data": { "Name": "x" } }` to `/api/update-data` on a case-insensitive server | treat the id as a value: update at most one row | high, not executed | `Endpoints.ObjectIdUpdatesEveryRow` | `Endpoints.ObjectIdChangesNothing` |
