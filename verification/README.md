# JADCoreEngine core, modelled in Dafny

This project models the request-independent core of the JADCoreEngine PHP
framework, which is a small MVC framework:

- the fluent SQL `QueryBuilder` and the static `DB` facade that forwards to it;
- the active-record `Models` base class (attribute access, validation, save, delete);
- the result `Collection`;
- the rule-string `Validator`;
- the `.env` loader (`load_env` / `env`);
- the `Router` (URI normalisation, route groups, the route table, `{param}` template matching);
- the memoising service `Container`.

Each PHP class becomes a Dafny module of pure functions over immutable
records. A method that mutates `$this` becomes a function from the old state
to the new one. A thrown exception, or a `Log::exception` call (which throws),
becomes the `Err` case of `Wrappers.Result`, and the `Thrown` datatype names
the cause.

Anything the core gets from outside is a parameter of the function that uses it:

- what PDO answers (rows, row counts, the last insert id, or a `PDOException`);
- what a service resolver returns;
- the lines of the `.env` file;
- the library predicates `is_numeric`, `filter_var` and `DateTime::createFromFormat`.

Modules and files:

| module | file | models |
|---|---|---|
| `Wrappers` | wrappers.dfy | `Option`, `Result`, the exceptions the core throws |
| `Php` | php.dfy | scalar values, `empty()`, array-key casting, decimal rendering, `trim`, `strtoupper`, `explode`, `str_replace`, `strtok` |
| `Arrays` | arrays.dfy | PHP ordered arrays: insertion order, the next free integer key, `array_merge` |
| `QueryBuilder` | query_builder.dfy | config/Facades/Database/QueryBuilder.php |
| `DB` | db.dfy | config/Facades/Database/DB.php and the builder's fluent chains |
| `Collections` | collection.dfy | config/Facades/Support/Collection.php |
| `Validation` | validator.dfy | config/Facades/Validation/Validator.php |
| `Models` | models.dfy | config/Facades/Models/Models.php |
| `Routing` | router.dfy | config/Facades/Routes/Router.php and Route.php |
| `Env` | env_loader.dfy | config/env_loader.php |
| `ServiceContainer` | container.dfy | config/Facades/Container.php |

Notable behaviours of the code:

- `whereIn('c', [])` goes through `addCondition` and emits `(c IN (  ))`. It
  does not emit `(0 = 1)`. The `addWhereInCondition` helper that would emit
  `(0 = 1)` / `(1 = 1)` is never called; it is modelled on its own as
  `QueryBuilder.AddWhereInCondition`.
- `select()` with no columns sets the column list to the empty string, not to `*`.
- `pluck` and `unique` read a model's field through `__get`: `Models` defines
  no `__isset`, so the `??` read reaches `__get` and sees the attribute.
- Route patterns end in `$` without the `D` modifier, so a path followed by one
  final newline still matches its route (`Routing.LiteralRoute`).
- `(int)` on a rule bound or an insert id follows PHP 8's string cast: leading
  whitespace, a sign, a decimal fraction and an exponent are read, and the
  value saturates at the 64-bit integer range (`Php.IntCast`).
- A route placeholder whose name starts with a digit, or that repeats a name,
  makes the regular expression invalid, so the route never matches.
- `normalizeUri` is not idempotent on every input; see `Routing.NormalizeIdempotent`.

## Model

| member | source | states |
|---|---|---|
| QueryBuilder.Initial | config/Facades/Database/QueryBuilder.php:29-38 | A new builder has no bindings, an empty where-string, `*` as its column list and no model class. |
| QueryBuilder.ResetState | config/Facades/Database/QueryBuilder.php:101-113 | After a reset, every query part is back to its initial value; only the model class and the PDO handle survive. |
| QueryBuilder.ValidateOperator | config/Facades/Database/QueryBuilder.php:89-96 | Accepts exactly the operators whose trimmed, upper-cased form is one of the 14 allow-listed ones, and returns that form. Any other operator throws `InvalidOperator` carrying the operator as given. |
| QueryBuilder.AuthorizedShape | config/Facades/Database/QueryBuilder.php:45-60 | Every allow-listed operator is non-empty, upper case and carries no surrounding whitespace. |
| QueryBuilder.OperatorCaseAndSpaceInsensitive | config/Facades/Database/QueryBuilder.php:89-96 | Any allow-listed operator written in lower case and padded with whitespace is accepted and normalised back to its listed spelling. |
| QueryBuilder.Placeholders | config/Facades/Database/QueryBuilder.php:187-212 | IS NULL / IS NOT NULL allocate no placeholder. A scalar allocates `:pN`, where N is the binding count. A list allocates `:p_(N+i)` for its i-th element. |
| QueryBuilder.ScalarNameIndex | config/Facades/Database/QueryBuilder.php:209 | The number written into a scalar placeholder name reads back as the binding count it was built from. |
| QueryBuilder.ListNameIndex | config/Facades/Database/QueryBuilder.php:199 | The number written into a list placeholder name reads back as the index it was built from. |
| QueryBuilder.FreshName | config/Facades/Database/QueryBuilder.php:196-211 | A placeholder numbered at or above the current binding count is not yet a binding key, so it cannot overwrite an earlier binding. |
| QueryBuilder.AddCondition | config/Facades/Database/QueryBuilder.php:176-217 | Succeeds exactly when the operator is allow-listed; otherwise it throws `InvalidOperator`. On success, only the where-string and the bindings change. |
| QueryBuilder.AddConditionBindings | config/Facades/Database/QueryBuilder.php:194-211 | An accepted condition appends, in order, one fresh binding per allocated placeholder with its value. It overwrites none, grows the count by the number of placeholders, and keeps the binding invariant. |
| QueryBuilder.AddConditionShape | config/Facades/Database/QueryBuilder.php:184-214 | An accepted condition keeps the where-string well-formed: empty, or starting with ` WHERE `. |
| QueryBuilder.Where | config/Facades/Database/QueryBuilder.php:226-229 | `where` throws exactly for operators outside the allow-list. On success it appends ` WHERE ` (first condition) or ` AND ` and the condition's text, and binds the value under the next placeholder. |
| QueryBuilder.OrWhere | config/Facades/Database/QueryBuilder.php:249-252 | `orWhere` throws exactly for operators outside the allow-list. On success it appends ` WHERE ` (first condition) or ` OR ` and the condition's text, and binds the value under the next placeholder. |
| QueryBuilder.WhereNot | config/Facades/Database/QueryBuilder.php:281-284 | `whereNot` throws exactly for operators outside the allow-list. On success it appends ` WHERE ` or ` AND `, then `NOT ` and the condition's text, and binds the value. |
| QueryBuilder.OrWhereNot | config/Facades/Database/QueryBuilder.php:294-297 | `orWhereNot` throws exactly for operators outside the allow-list. On success it appends ` WHERE ` or ` OR `, then `NOT ` and the condition's text, and binds the value. |
| QueryBuilder.FixedOperatorsAccepted | config/Facades/Database/QueryBuilder.php:305-319 | The operators `IN`, `NOT IN` and `=`, which the library itself passes, pass validation unchanged. |
| QueryBuilder.WhereIn | config/Facades/Database/QueryBuilder.php:305-308 | `whereIn` never throws and adds an AND `IN` condition; a scalar argument takes the scalar branch. |
| QueryBuilder.OrWhereIn | config/Facades/Database/QueryBuilder.php:316-319 | `orWhereIn` never throws and adds an OR `IN` list condition. |
| QueryBuilder.WhereNotIn | config/Facades/Database/QueryBuilder.php:327-330 | `whereNotIn` never throws and adds an AND `NOT IN` list condition. |
| QueryBuilder.OrWhereNotIn | config/Facades/Database/QueryBuilder.php:338-341 | `orWhereNotIn` never throws and adds an OR `NOT IN` list condition. |
| QueryBuilder.ListCallsAddCondition | config/Facades/Database/QueryBuilder.php:305-341 | `whereIn`, `orWhereIn`, `whereNotIn` and `orWhereNotIn` are exactly `addCondition` with `IN` / `NOT IN` and the AND / OR connective. |
| QueryBuilder.WhereInEmptyList | config/Facades/Database/QueryBuilder.php:305-308 | `whereIn` with an empty list emits `(col IN (  ))` and binds nothing. |
| QueryBuilder.AddWhereInCondition | config/Facades/Database/QueryBuilder.php:351-378 | With an empty list, the unused helper emits `(0 = 1)` for IN and `(1 = 1)` otherwise, and binds nothing. |
| QueryBuilder.AddWhereInConditionBinds | config/Facades/Database/QueryBuilder.php:360-375 | With a non-empty list, the helper appends the values in order under `:p_in_{n+i}`, names that no existing binding uses, and keeps the existing bindings in place. |
| QueryBuilder.InListNameForeign | config/Facades/Database/QueryBuilder.php:365 | A `:p_in_` name reads as no placeholder number, so it is none of the names the public methods allocate. |
| QueryBuilder.WhereRaw | config/Facades/Database/QueryBuilder.php:236-240 | As written: appends ` AND raw ` whatever the where-string holds, and binds nothing. |
| QueryBuilder.OrWhereRaw | config/Facades/Database/QueryBuilder.php:259-263 | As written: appends ` OR raw ` whatever the where-string holds, and binds nothing. |
| QueryBuilder.WhereRawFirstBreaksShape | config/Facades/Database/QueryBuilder.php:236-263 | On a builder with no conditions, both raw methods leave a where-string that does not start with WHERE. |
| QueryBuilder.WhereRawFixed | config/Facades/Database/QueryBuilder.php:236-240 | The corrected `whereRaw` binds nothing and keeps the where-string well-formed. |
| QueryBuilder.OrWhereRawFixed | config/Facades/Database/QueryBuilder.php:259-263 | The corrected `orWhereRaw` binds nothing and keeps the where-string well-formed. |
| QueryBuilder.WhereBetween | config/Facades/Database/QueryBuilder.php:265-271 | As written: the SQL names `:pN` and `:pN+1`, while the two bounds are pushed as values under positional integer keys. |
| QueryBuilder.WhereBetweenNamesUnbound | config/Facades/Database/QueryBuilder.php:267-269 | Neither name that the written `whereBetween` puts in the SQL has a binding. |
| QueryBuilder.WhereBetweenExampleSql | config/Facades/Database/QueryBuilder.php:267 | `whereBetween('age', [18, 65])` on a fresh builder writes `WHERE (age BETWEEN :p0 AND :p1)`. |
| QueryBuilder.WhereBetweenExampleKeys | config/Facades/Database/QueryBuilder.php:268-269 | ...and binds the keys 0 and 1. |
| QueryBuilder.WhereBetweenNamed | config/Facades/Database/QueryBuilder.php:265-271 | The corrected `whereBetween` writes the same SQL text as the original. |
| QueryBuilder.WhereBetweenNamedBinds | config/Facades/Database/QueryBuilder.php:265-271 | The corrected `whereBetween` binds the low and high bounds under exactly the two names its SQL uses, and keeps the binding invariant. |
| QueryBuilder.OrderBy | config/Facades/Database/QueryBuilder.php:386-390 | Appends `column DIRECTION`, with the direction upper-cased; nothing else changes. |
| QueryBuilder.OrderByDefault | config/Facades/Database/QueryBuilder.php:386-390 | `orderBy($column)` without a direction appends `column ASC`; nothing else changes. |
| QueryBuilder.OrderByDirectionCase | config/Facades/Database/QueryBuilder.php:388 | The direction is case-insensitive: any spelling gives the term its upper-cased form gives, and `asc` is the default. |
| QueryBuilder.OrderByExtendsClause | config/Facades/Database/QueryBuilder.php:386-390 | Each `orderBy` adds its term at the end of the ORDER BY clause, after a `, `, or opens the clause. |
| QueryBuilder.GroupBy | config/Facades/Database/QueryBuilder.php:397-401 | Appends the columns, in order; nothing else changes. |
| QueryBuilder.GroupByMerges | config/Facades/Database/QueryBuilder.php:397-401 | Two `groupBy` calls group by what one call with both column lists would. |
| QueryBuilder.GroupByExtendsClause | config/Facades/Database/QueryBuilder.php:397-401 | Later columns follow the earlier ones in the GROUP BY clause, after a `, `. |
| QueryBuilder.GroupByClause | config/Facades/Database/QueryBuilder.php:450-471 | The GROUP BY clause is absent exactly when there are no columns; otherwise it is ` GROUP BY ` followed by the columns joined with `, `. |
| QueryBuilder.OrderByClause | config/Facades/Database/QueryBuilder.php:450-471 | The ORDER BY clause is absent exactly when there are no terms; otherwise it is ` ORDER BY ` followed by the terms joined with `, `. |
| QueryBuilder.LimitClause | config/Facades/Database/QueryBuilder.php:450-471 | LIMIT appears only when a limit is set. OFFSET appears exactly when an offset is also set, and it follows the limit. |
| QueryBuilder.ToSql | config/Facades/Database/QueryBuilder.php:450-471 | The SQL is the SELECT head up to the where-string, then GROUP BY, ORDER BY and LIMIT, in that order. |
| QueryBuilder.OffsetNeedsLimit | config/Facades/Database/QueryBuilder.php:464-468 | Without a limit, setting an offset does not change the SQL. |
| QueryBuilder.ToSqlIgnoresBindings | config/Facades/Database/QueryBuilder.php:450-471 | The SQL text does not depend on the bindings, the debug flag or the model class. |
| QueryBuilder.BindParams | config/Facades/Database/QueryBuilder.php:489-527 | Each binding is bound once, in order, under its key. It is typed as an integer exactly when the value is an integer. |
| QueryBuilder.DefaultOrder | config/Facades/Database/QueryBuilder.php:489-527 | `get` adds `table.created_at DESC` exactly when no ORDER BY was given; nothing else in the state changes. |
| QueryBuilder.Fetch | config/Facades/Database/QueryBuilder.php:489-527 | `get` prepares the SQL of the defaulted state with the builder's bindings. A `PDOException` yields `[]`. Otherwise it yields one hydrated item per row, in order, as a list. |
| QueryBuilder.HydrateKeepsFields | config/Facades/Database/QueryBuilder.php:505-515 | A hydrated item holds exactly the fields of its row. |
| QueryBuilder.PluckFetched | config/Facades/Support/Collection.php:104-109 | `pluck` on what `get` returns yields each fetched row's column, in order, or null where the row lacks it. This holds whether or not the rows were hydrated into models. |
| QueryBuilder.First | config/Facades/Database/QueryBuilder.php:425-429 | `first` returns an item exactly when the fetch returned at least one row, and that item is the first row hydrated. |
| QueryBuilder.ReadCount | config/Facades/Database/QueryBuilder.php:431-438 | The count is never null. It is 0 without a first row; any other count is the `value` field of the first row. |
| QueryBuilder.CountRows | config/Facades/Database/QueryBuilder.php:431-438 | `count` runs `get` with `COUNT(*) AS value` selected. It answers 0 unless a row came back, and otherwise answers that row's `value`. |
| QueryBuilder.Find | config/Facades/Database/QueryBuilder.php:440-443 | `find` cannot throw, and it is `first` after an AND `id = ` scalar condition. |
| QueryBuilder.FindBindsId | config/Facades/Database/QueryBuilder.php:440-443 | The id that `find` looks for is the last parameter bound, under the next scalar placeholder name. |
| QueryBuilder.Insert | config/Facades/Database/QueryBuilder.php:537-582 | An empty value map prepares nothing and returns false. Otherwise the statement names every column. The result is the integer cast of the last insert id exactly when execution succeeded, and false otherwise. |
| QueryBuilder.InsertColumnsMatchPlaceholders | config/Facades/Database/QueryBuilder.php:537-582 | Every bound parameter is `:column` for the column in the same position, and carries that column's value. |
| QueryBuilder.Update | config/Facades/Database/QueryBuilder.php:589-635 | An empty table name or an empty value map prepares nothing and returns false. Otherwise the result is the affected row count when execution succeeded, and false otherwise. |
| QueryBuilder.UpdateNamesDisjoint | config/Facades/Database/QueryBuilder.php:600-612 | The `:u_` update names never collide with the builder's `:p` names. |
| QueryBuilder.UpdateBindingsOrder | config/Facades/Database/QueryBuilder.php:600-612 | The update values are bound first, under `:u_column` in column order, and the builder's bindings follow unchanged. |
| QueryBuilder.Delete | config/Facades/Database/QueryBuilder.php:641-684 | Throws exactly when the table name or the where-string is empty, and names which one. Otherwise it prepares `DELETE FROM table where` with the builder's bindings, resets the state, and returns the affected row count on success. |
| DB.Apply | config/Facades/Database/DB.php:92-97 | A forwarded call succeeds exactly when it names a builder method and any operator it carries is allow-listed. An unknown name throws `UndefinedMethod`. |
| DB.ApplyConditionCalls | config/Facades/Database/DB.php:92-97 | `where`, `orWhere`, `whereNot` and `orWhereNot` forward to the builder method of that name with the same arguments. |
| DB.ApplyListCalls | config/Facades/Database/DB.php:92-97 | The four list calls forward to the builder method of that name with the same arguments. |
| DB.ApplyRawCalls | config/Facades/Database/DB.php:92-97 | `whereRaw`, `orWhereRaw` and `whereBetween` forward to the builder methods as written. |
| DB.ApplySetterCalls | config/Facades/Database/DB.php:92-97 | The table, select, join, debug, model, order, group, limit and offset calls forward to the builder method of that name. |
| DB.ChainThrowsAtFirstRejected | config/Facades/Database/DB.php:92-97 | A fluent chain throws exactly when one of its calls is rejected. |
| DB.ApplyWellFormed | config/Facades/Database/QueryBuilder.php:176-271 | Every accepted builder call except `whereBetween`, and a raw call as the first condition, keeps the bindings invariant and a well-formed where-string. |
| DB.ApplyBreaks | config/Facades/Database/QueryBuilder.php:236-271 | The excluded calls do break a well-formed builder: `whereBetween` adds positional bindings, and a first raw call leaves a where-string without WHERE. |
| DB.ChainWellFormed | config/Facades/Database/QueryBuilder.php:176-423 | A whole fluent chain of accepted calls, none of which breaks the builder, keeps the state well-formed. |
| DB.ApplyFixed | config/Facades/Database/QueryBuilder.php:236-271 | The dispatch with the corrected raw and between methods accepts exactly the calls the written one does, and differs from it only on those three methods. |
| DB.ApplyFixedAgrees | config/Facades/Database/QueryBuilder.php:236-271 | The corrected raw calls agree with the written ones once a condition exists, and the corrected `whereBetween` writes the same SQL text. |
| DB.ApplyFixedWellFormed | config/Facades/Database/QueryBuilder.php:176-271 | With the corrections, every accepted call keeps the builder well-formed. |
| DB.ChainFixedWellFormed | config/Facades/Database/QueryBuilder.php:176-423 | With the corrections, every accepted chain keeps the builder well-formed. |
| DB.Boot | config/Facades/Database/DB.php:46-49 | After `boot`, `getConnection` returns the booted handle. |
| DB.BootOverwrites | config/Facades/Database/DB.php:46-49 | A second `boot` replaces the first. |
| DB.GetConnection | config/Facades/Database/DB.php:57-63 | Returns the handle exactly when one was booted; otherwise it throws `ConnectionNotInitialized`. |
| DB.GetQueryBuilderInstance | config/Facades/Database/DB.php:72-81 | Each call stores and returns a brand-new builder on the booted handle; it throws before `boot`. |
| DB.CallStatic | config/Facades/Database/DB.php:92-97 | A static call applies the method to a fresh builder, stores that builder as the instance, and never changes the connection. |
| DB.CallStaticForgetsHistory | config/Facades/Database/DB.php:72-97 | The result of a static call does not depend on earlier static calls. |
| DB.SessionForgetsHistory | config/Facades/Database/DB.php:72-97 | The same holds after any number of earlier static calls. |
| DB.Run | config/Facades/Database/DB.php:92-97 | `DB::m(...)->...` is the chain of calls on a fresh builder, or `ConnectionNotInitialized` before `boot`. |
| DB.RunWellFormed | config/Facades/Database/DB.php:92-97 | A chain started from the facade that does not throw, and in which no call breaks the builder, ends in a well-formed state. |
| DB.RunRawFirstBreaks | config/Facades/Database/DB.php:92-97 | `DB::whereRaw(...)` and `DB::orWhereRaw(...)` on the booted facade leave a where-string that does not open with WHERE. |
| DB.RunBetweenUnbound | config/Facades/Database/DB.php:92-97 | `DB::whereBetween(col, values)` writes ` WHERE (col BETWEEN :p0 AND :p1)` and binds neither name. |
| DB.RunFixedWellFormed | config/Facades/Database/DB.php:92-97 | With the corrections, every chain started from a fresh builder ends well-formed. |
| Models.New | config/Facades/Models/Models.php:78-81 | A model takes the given PDO handle, or else the facade's; without either it throws `ConnectionNotInitialized`. |
| Models.FillOverwrites | config/Facades/Models/Models.php:50-56 | After `fill`, each key of the data holds the data's value and every other key keeps its value; no key is refused. |
| Models.SetAttribute | config/Facades/Models/Models.php:69-76 | A property write is stored exactly for a schema column or `id`, and other keys are untouched. Any other name leaves the model unchanged. |
| Models.OffsetExists | config/Facades/Models/Models.php:192-195 | `isset($m[$k])` holds exactly when the cast key is present with a non-null value. |
| Models.OffsetSet | config/Facades/Models/Models.php:202-205 | An array write is read back and touches no other key. |
| Models.OffsetUnset | config/Facades/Models/Models.php:207-210 | After an unset, the key is absent, reads as null, and no other key changes. |
| Models.OffsetSetBypassesSchema | config/Facades/Models/Models.php:69-76 | For a name outside the schema, the array write stores the value while the property write drops it. |
| Models.SchemaFilterGet | config/Facades/Models/Models.php:132 | The filtered data keeps a key exactly when it names a schema column, and with the same value. |
| Models.Validate | config/Facades/Models/Models.php:128-145 | Validation succeeds exactly when the schema-filtered data passes every rule; success returns the filtered data, and failure returns at least one error. |
| Models.Query | config/Facades/Models/Models.php:113-116 | `query()` is a fresh facade builder on the model's table with the model class set; before `boot` it throws. |
| Models.QueryChain | config/Facades/Models/Models.php:113-116 | That builder is exactly the result of the fluent chain `DB::table(t)->setModel(c)`. |
| Models.CallStatic | config/Facades/Models/Models.php:90-99 | A static call on a model applies the method to the model's query builder. An unknown name throws `UndefinedMethod`. |
| Models.KeyedOnId | config/Facades/Models/Models.php:155 | The builder that `save` and `delete` key on the id holds one condition, `id = :p0`, with the id as its only binding. |
| Models.Save | config/Facades/Models/Models.php:150-166 | With an id, `save` updates that row and reports whether any row was written. Without an id it inserts, and on success stores the new id in the attributes. A failed save leaves the model unchanged; without a connection it throws. |
| Models.SaveUpdatesById | config/Facades/Models/Models.php:154-157 | The update binds every attribute under its `:u_` name, followed by the id under `:p0`. |
| Models.Delete | config/Facades/Models/Models.php:171-180 | A model without an id deletes nothing and returns false. Otherwise it deletes by id and reports true exactly when a row was removed; it throws without a connection or a table name. |
| Models.DeleteById | config/Facades/Models/Models.php:177-179 | The delete statement is `DELETE FROM table` keyed on `id = :p0`, with the id bound. |
| Collections.FilterSeq | config/Facades/Support/Collection.php:43-46 | The kept items are a subsequence of the input; exactly the items satisfying the predicate survive, each as many times as in the input. |
| Collections.FilterConcat | config/Facades/Support/Collection.php:43-46 | Filtering distributes over concatenation. |
| Collections.Map | config/Facades/Support/Collection.php:35-38 | `map` keeps every key and applies the callback to each value in place. |
| Collections.MapGet | config/Facades/Support/Collection.php:35-38 | A key of the mapped collection holds the callback applied to the original value, and a missing key stays missing. |
| Collections.Filter | config/Facades/Support/Collection.php:43-46 | `filter` re-indexes to a list holding, in order, exactly the items that satisfy the predicate, each as many times as in the collection. |
| Collections.First | config/Facades/Support/Collection.php:51-54 | `first` on a list is its first value, or null when it is empty. |
| Collections.Unique | config/Facades/Support/Collection.php:70-80 | `unique` keeps a subsequence in which no two survivors compare equal on the key. Every dropped item's key equals that of a survivor. |
| Collections.UniqueKeepsFirst | config/Facades/Support/Collection.php:70-80 | `unique` scans in order and keeps an item exactly when no item kept before it has an equal key: the first occurrence wins. |
| Collections.InsertionSort | config/Facades/Support/Collection.php:85-99 | Sorting permutes the items. |
| Collections.InsertionSortSorted | config/Facades/Support/Collection.php:85-99 | For a comparator that is a total preorder, the result is sorted. |
| Collections.SortBy | config/Facades/Support/Collection.php:85-99 | `sortBy` returns a list holding the same items, counted with multiplicity. |
| Collections.SortByOrdered | config/Facades/Support/Collection.php:85-99 | The items come out ordered by the key, ascending for `asc` and descending otherwise. |
| Collections.Pluck | config/Facades/Support/Collection.php:104-109 | `pluck` gives one value per item, under the item's key: the item's stored field, or null. On a model the `??` read goes through `__get`, so it sees the attribute. |
| Collections.GroupIntoMembers | config/Facades/Support/Collection.php:158-166 | Each group holds, in order, exactly the items whose key casts to that group's key. |
| Collections.GroupByPartition | config/Facades/Support/Collection.php:158-166 | Every item is in the group of its key, and every group member has that group's key. |
| Collections.IsEmpty | config/Facades/Support/Collection.php:168-171 | Empty exactly when the count is 0. |
| Collections.OffsetExists | config/Facades/Support/Collection.php:134-137 | `isset($c[$k])` holds exactly when the cast key holds a non-null item. |
| Collections.OffsetSet | config/Facades/Support/Collection.php:144-151 | A null offset appends; any other offset stores the value under the cast key. |
| Collections.OffsetUnset | config/Facades/Support/Collection.php:153-156 | After an unset, the key is absent and no other key changes. |
| Validation.NewValidator | config/Facades/Validation/Validator.php:18 | A new validator has no errors. |
| Validation.AddError | config/Facades/Validation/Validator.php:40 | An error is appended to its field's list; every other field is unchanged. |
| Validation.ApplyRule | config/Facades/Validation/Validator.php:31-96 | A rule changes the validator exactly when it reports an error, and then it appends that message to the field. |
| Validation.EmptyValueRules | config/Facades/Validation/Validator.php:33-35 | An empty value fails only `required`, and passes every other rule. |
| Validation.SwitchLabels | config/Facades/Validation/Validator.php:62-78 | `required` fails exactly on an empty value. `boolean` fails exactly outside the eight strictly accepted values. |
| Validation.BooleanRule | config/Facades/Validation/Validator.php:73-78 | On a non-empty value, `boolean` passes exactly for one of `true, false, 1, 0, '1', '0', 'true', 'false'` under strict comparison. |
| Validation.BoundErrors | config/Facades/Validation/Validator.php:80-93 | `min:T` reports exactly when the string length is below `(int) T`, and `max:T` exactly when it is above it. |
| Validation.MinMaxRules | config/Facades/Validation/Validator.php:80-93 | On a non-empty value, `min:T` / `max:T` add an error exactly when the length is below / above `(int) T`. |
| Validation.MinMaxDecimal | config/Facades/Validation/Validator.php:80-93 | With a decimal bound N, the bound is N itself whenever N fits a PHP integer, and saturates otherwise. |
| Validation.MinMaxScientific | config/Facades/Validation/Validator.php:80-93 | A bound written `MeK`, such as `min:1e3`, is M times 10^K, saturated. |
| Php.IntCast | config/Facades/Validation/Validator.php:82 | The cast always lands in the 64-bit integer range, and text without a numeric prefix casts to 0. |
| Php.IntCastNat | config/Facades/Validation/Validator.php:82 | The cast reads back the decimal text of any natural number, saturated at the integer maximum. |
| Php.IntCastIntToString | config/Facades/Database/QueryBuilder.php:573 | The cast reads back the decimal text of any integer in range, negative ones included. |
| Php.IntCastScientific | config/Facades/Validation/Validator.php:82 | The cast of `MeK` is M times 10^K, saturated. |
| Validation.UnknownRule | config/Facades/Validation/Validator.php:37-95 | A rule without a colon that names no known check never adds an error. |
| Validation.ApplyRulesExact | config/Facades/Validation/Validator.php:22-27 | A field's rules leave the validator unchanged exactly when every rule passes; otherwise some error is recorded. |
| Validation.ValidateFieldsExact | config/Facades/Validation/Validator.php:22-27 | The same holds over all fields: no change if every field passes, some error otherwise. |
| Validation.Validate | config/Facades/Validation/Validator.php:20-29 | `validate` returns true exactly when no errors are recorded; errors are never removed. |
| Validation.ValidateExact | config/Facades/Validation/Validator.php:20-29 | On a fresh validator, `validate` returns true exactly when every field passes every one of its rules. |
| Validation.RequiredFieldFails | config/Facades/Validation/Validator.php:62-66 | A `required` field whose value is empty or missing makes `validate` return false. |
| Routing.NormalizeUri | config/Facades/Routes/Router.php:250-267 | The result is `/`, or a path that starts with exactly one `/`, does not end with `/`, and holds no `?`. |
| Routing.StripScript | config/Facades/Routes/Router.php:254 | Removing the script names never lengthens the path and never introduces a character. |
| Routing.NormalizeCanonical | config/Facades/Routes/Router.php:250-267 | A path already in normal form that contains no `.php` is left as it is. |
| Routing.NormalizeIdempotent | config/Facades/Routes/Router.php:250-267 | Normalising twice is normalising once, whenever the first result contains no `.php`. |
| Routing.QueryStringIgnored | config/Facades/Routes/Router.php:252 | Appending a query string does not change the normalised path. |
| Routing.ArrayUnique | config/Facades/Routes/Router.php:54 | The same middleware names survive, without duplicates, in order of first occurrence. |
| Routing.UniqueOfDistinct | config/Facades/Routes/Router.php:67 | A list without duplicates passes `array_unique` unchanged. |
| Routing.PushGroup | config/Facades/Routes/Router.php:59-78 | Pushing leaves the routes alone and pushes exactly one group. Under a parent, the middleware is the de-duplicated parent list followed by the child's, and a child without a controller inherits a truthy parent controller. |
| Routing.PopGroup | config/Facades/Routes/Router.php:80-83 | Pops the top group; it does nothing on an empty stack. |
| Routing.PopPush | config/Facades/Routes/Router.php:85-92 | Popping right after a push restores the stack. |
| Routing.MergeGroupAttributes | config/Facades/Routes/Router.php:36-57 | The registered path is the normalised one. Without a group, the middleware is de-duplicated and there is no controller; under a group, the group's middleware comes first and its controller is taken. |
| Routing.AddRoute | config/Facades/Routes/Router.php:103 | The route is stored under its method and path, replacing in place or appending at the end. No other path or method changes. |
| Routing.BindController | config/Facades/Routes/Router.php:98-101 | A string callback under a group controller becomes `[controller, method]`; anything else is kept as it is. |
| Routing.Register | config/Facades/Routes/Router.php:94-116 | `get`/`post` store the route under the normalised path, with the bound callback, type `controller` and the merged middleware. No other path or method changes. |
| Routing.RouteGet | config/Facades/Routes/Router.php:94-104 | `get` stores a controller-type route in the GET table only. |
| Routing.RoutePost | config/Facades/Routes/Router.php:106-116 | `post` stores a controller-type route in the POST table only. |
| Routing.RouteView | config/Facades/Routes/Router.php:118-122 | `view` stores a view-type GET route whose callback is the view name, never paired with a controller. |
| Routing.ReRegisterOverwrites | config/Facades/Routes/Router.php:103 | Registering the same method and path twice keeps the table's key order, and the later route wins. |
| Routing.Controller | config/Facades/Routes/Router.php:85-92 | `controller($cls, $cb)` leaves the group stack as it found it. |
| Routing.RunBalanced | config/Facades/Routes/Route.php:47-57 | Any nesting of `controllers`/`middlewares` groups and registrations leaves the group stack as it found it. |
| Routing.RenderCompile | config/Facades/Routes/Router.php:185 | Parsing a route template into literal characters and `{name}` parameters loses nothing: rendering it back gives the template. |
| Routing.Match | config/Facades/Routes/Router.php:185-189 | A successful match returns one capture per parameter, in order and named after it. Each capture is non-empty and holds no `/`. |
| Routing.MatchComplete | config/Facades/Routes/Router.php:185-187 | The backtracking matcher succeeds exactly when some assignment of slash-free, non-empty values to the parameters rebuilds the path, and the rest of the path is empty or a single final newline, where `$` matches. |
| Routing.LiteralRoute | config/Facades/Routes/Router.php:185-187 | A template without parameters fits exactly two paths: the identical one, and the identical one followed by a newline, since `$` has no `D` modifier. |
| Routing.Fit | config/Facades/Routes/Router.php:185-187 | `preg_match` succeeds exactly when the group names compile (none starts with a digit, none repeats) and the path fits the pattern, up to where `$` matches (the end, or before a final newline); the captures are the matcher's. |
| Routing.LiteralNewlineFits | config/Facades/Routes/Router.php:185-187 | A route path without placeholders matches itself followed by one newline, with no captures. |
| Routing.FinalNewlineSurvives | config/Facades/Routes/Router.php:250-267 | `normalizeUri` trims only `/`, so a final newline after a normal-form path without `.` is kept and reaches the matcher. |
| Routing.DigitNameNeverFits | config/Facades/Routes/Router.php:185-187 | The route `/u/{1id}` reads as a parameter that `/u/5` fits, yet it never matches, because the group name is invalid. |
| Routing.FirstMatch | config/Facades/Routes/Router.php:184-192 | Finds the first route, in registration order, whose pattern matches. |
| Routing.Resolve | config/Facades/Routes/Router.php:175-196 | Resolution throws the 404 `RouteNotFound(method, path)` exactly when no route for the method matches the normalised request path. Otherwise it returns the first matching route, with the params the matcher captured on it. Matching follows `$`, so a path with one final newline still resolves. |
| Env.Unquote | config/env_loader.php:40-42 | A value wrapped in a pair of quote characters, with no line break inside, loses the pair; any other value is kept. |
| Env.ParseLine | config/env_loader.php:28-48 | Comments and lines without `=` define nothing. A defined key is non-empty and contains no `=`. |
| Env.PlainLineRoundTrip | config/env_loader.php:35-47 | `KEY=value` parses back to the key and the value for any unpadded key and value. |
| Env.QuotedLineRoundTrip | config/env_loader.php:35-47 | `KEY="value"` parses back to the key and the value without its quotes. |
| Env.LoadEnv | config/env_loader.php:20-50 | A missing file throws `EnvFileNotFound(path)`. Otherwise `$_ENV` and `$_SERVER` both hold, for each key, the value of the last line that defines it, and every other key keeps its old value. |
| Env.LoadLinesLookup | config/env_loader.php:28-49 | After the lines are loaded, the last definition of a key wins, in both superglobals. |
| Env.Lookup | config/env_loader.php:54 | `env` reads `$_ENV`, then `$_SERVER`, then the default, and skips null entries. |
| Env.Coerce | config/env_loader.php:56-67 | The strings `true`, `false` and `null`, in any letter case, become the boolean or null. Every other value passes unchanged. |
| Env.CoerceIdempotent | config/env_loader.php:56-67 | Coercing twice is coercing once. |
| Env.EnvValue | config/env_loader.php:52-68 | An unset key yields the coerced default, and no string result spells a keyword. |
| Env.LoadedThenRead | config/env_loader.php:20-68 | A key the file defines as `KEY=value` reads back through `env` as the coercion of that value, whatever was there before. |
| ServiceContainer.Get | config/Facades/Container.php:21-36 | A cached non-null instance is returned without calling the resolver. An unknown key throws `ServiceNotFound`. Otherwise the resolver is called once and its result is returned and remembered. |
| ServiceContainer.Set | config/Facades/Container.php:38-42 | Registering replaces the resolver and forgets the cached instance for that key only. |
| ServiceContainer.GetMemoises | config/Facades/Container.php:21-36 | After a non-null resolution, later `get`s return the same instance without calling the resolver. |
| ServiceContainer.NullNotMemoised | config/Facades/Container.php:23 | A resolver that returned null is called again on the next `get`, because `isset` ignores null. |
| ServiceContainer.SetThenGet | config/Facades/Container.php:38-42 | A `get` right after `set` always calls the new resolver. |
| ServiceContainer.OtherKeysUntouched | config/Facades/Container.php:21-42 | Resolving or re-registering one key changes nothing cached or registered under another key. |

## Left out

- Executing SQL: what PDO answers is a parameter, and the `debug` dump of the SQL is not modelled.
- Logging: `Log::info` and `Log::warning` write a message and carry on, so they are dropped. `Log::exception` throws and is modelled as `Err`.
- `Collection::sum`: it is floating-point arithmetic.
- `Collection::getIterator`, `jsonSerialize`, `all` and `count`: they expose the items unchanged.
- `Models::jsonSerialize`, `getTableName` and `getSchemaColumns`: they return stored data.
- Validator checks that call library code: `is_numeric` (rule `number` and the `min` message wording), `filter_var` (`email`), `DateTime::createFromFormat` (`date`, `timestamp`) and the string form of floats. These are predicates of the `Validation.Library` parameter.
- `mb_strlen`: the model counts code points of the `string` as given, with no encoding.
- `load_env`'s file access: the file's existence and its lines are a parameter. The rest of `config/env_loader.php` is not part of this model (error handler, `ini_set`, maintenance redirect).
- `Router::render`, `Router::createController`, the middleware pipeline built by `array_reduce` in `resolve`, and dispatch to the callback: they instantiate classes, include view files and write output.
- `Route::boot`, `Route::resolve` and `Route::getRoutes`: they forward to the router and hold nothing of their own.
- Routing.Resolve: route paths are compared as literal text. The code inserts them into the regular expression unescaped, so a route path containing a regex metacharacter is outside the model, and so is PCRE's limit on the length of a group name.
- Routing.ArrayUnique: it returns values only. `array_unique` keeps the first key of each value, and middleware arrays are assumed to be lists.
- Routing.PushGroup: the stack is `seq<Group>`, so a group always has the `middleware` and `controller` entries that the code reads with `?? []` / `?? null`.
- Routing.NormalizeIdempotent: it requires the normalised path to contain no `.php`. Otherwise normalisation is not idempotent: `/a..phpphp` normalises to `/a.php`, which normalises to `/a`.
- Routing.StripScript: it states only that the path gets no longer and gains no character. The exact text is given by the definition, built on `Php.RemoveAll`.
- ServiceContainer.Get: a resolver that itself calls `get` or `set` on the container, or that throws, is outside the model. The value it returns is a parameter.
- Models.SetAttribute: the schema check uses string equality. `in_array` compares loosely, so numeric strings such as `'1'` and `'01'` also match each other there.
- Models.Query: the model does not thread the facade's stored instance through a model's query; only the result of the chain is modelled.
- Collections.SortBy: stability is not stated. The comparator is a parameter standing for `<=>` on the key, and the order is proved under the assumption that it is a total preorder.
- Collections.Unique: loose `==` (`in_array` without strict) is a parameter `eq`.
- QueryBuilder.AddCondition: a list operand is a PHP list, so its indices are `0..n-1`. A non-list array with other keys would name its placeholders after those keys.
- Php.IntCast: the fraction and exponent are read exactly, where PHP goes through a double. With more significant digits than a double holds, the two can differ: `"0.99999999999999999999"` casts to 0 here and to 1 in PHP. The integer range is that of a 64-bit platform.
- QueryBuilder.Fetch: hydration calls `new $modelClass()`, which throws `ConnectionNotInitialized` when the facade was never booted (config/Facades/Models/Models.php:78-81). A builder made through the facade or a model always has a booted facade, so only a builder constructed directly on a PDO can reach it; `Fetch` has no error outcome for it.
- QueryBuilder.OrderBy: the facade call always carries a direction; `DB::orderBy('c')` is `OrderByCall("c", "ASC")`, as `QueryBuilder.OrderByDefault` states.
- DB.Run: terminal reads and writes (`get`, `insert`, `update`, `delete`) are separate functions on the final state, not members of the `Call` datatype.

## Findings

| source | as written | input that shows it | evidently intended | confidence | as-written member | corrected member |
|---|---|---|---|---|---|---|
| config/Facades/Database/QueryBuilder.php:265-271 | `whereBetween` writes `:pN AND :pN+1` into the SQL but pushes the bounds with `$this->bindings[] =`, under integer keys | `whereBetween('age', [18, 65])` on a fresh builder: the SQL names `:p0` and `:p1`, the bindings have keys 0 and 1, so neither name is bound | bind the bounds under `:pN` and `:pN+1` | not executed | QueryBuilder.WhereBetweenNamesUnbound | QueryBuilder.WhereBetweenNamedBinds |
| config/Facades/Database/QueryBuilder.php:236-263 | `whereRaw` / `orWhereRaw` always prepend ` AND ` / ` OR ` | `whereRaw('x = 1')` as the first condition gives the where-string ` AND x = 1 `, so the SQL reads `FROM t  AND x = 1` | open with ` WHERE ` when the where-string is empty, as `addCondition` does | not executed | QueryBuilder.WhereRawFirstBreaksShape | QueryBuilder.WhereRawFixed |
