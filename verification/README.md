# simple_query in Dafny

A model of `simple_query`, a Go package that builds parameterised SQL
statements. Each builder (select, insert, update, delete) validates its
record and then renders SQL text plus an ordered argument list. The
placeholders in the text (`?` in MySQL, `$N` in Postgres) must line up with
the positions of the arguments.

The model covers:

- the placeholder renderer `getPlaceholder`;
- the whitelist of value kinds;
- the condition tree `Filter`, with its validator and compiler;
- the sort term;
- the four statement builders;
- the three sub-query-capable nodes: `Field`, `Table` and `FilterValue`.

Everything is pure: immutable datatypes, functions that return
`Result<Statement>` (text and arguments, or a fault), and lemmas relating
those functions to independent reference definitions.

Modules, one per file:

| file | module | models |
|---|---|---|
| outcomes.dfy | `Outcomes` | `Option`, `Result`, and `Fault`: an error message, or the nil-pointer panic |
| text.dfy | `Text` | `strings.Join`, decimal formatting, and string order with the sorted key list |
| dialect.dfy | `Dialects` | `getPlaceholder` |
| values.dfy | `Values` | `reflect.Kind`, the `allowedKindValue` whitelist, and the package helper `typedSliceToInterfaceSlice` |
| filter.dfy | `Filters` | `Filter.validate`, the filter's own `typedSliceToInterfaceSlice`, `toSQLWithArgs`, `ToSQLWithArgs` |
| filter_shape.dfy | `FilterShape` | the dialect-neutral layout of a compiled tree, and positional correctness of its placeholders |
| statement.dfy | `Statements` | the `(text, args)` result, and the shared "compile the filter, append where" step |
| sort.dfy | `Sorts` | `Sort.validate`, `Sort.ToSQL` |
| select_query.dfy | `SelectQueries` | `Select`, `SelectQuery.validate`, `SelectQuery.ToSQLWithArgs` |
| field.dfy, table.dfy, filter_value.dfy | `Fields`, `Tables`, `FilterValueNodes` | the three sub-query-capable nodes |
| insert_query.dfy | `InsertQueries` | `getColumnsAndRowsValues`, `InsertQuery.validate`, `InsertQuery.ToSQLWithArgs` |
| update_query.dfy | `UpdateQueries` | `UpdateQuery.validate`, `UpdateQuery.ToSQLWithArgs` |
| delete_query.dfy | `DeleteQueries` | `DeleteQuery.validate`, `DeleteQuery.ToSQLWithArgs` |

How Go concepts are represented:

- **Results.** Go's `(string, []interface{}, error)` becomes `Result<Statement>`. On an error the builders return `""` and nil arguments, so the failure case carries no text and no arguments. The filter is the exception: it returns the caller's arguments on most errors, so it keeps Go's triple as `Compiled(text, args, err)`.
- **Values.** Values seen through reflection are a closed datatype, `Value`. Each case has the kind Go reports for it, and nil has kind `Invalid`. A list records the kind of its static element type, which is what `reflect.Value.Index(i).Kind()` reports. Floats, maps, pointers and the other kinds the package never inspects are opaque tokens.
- **Nil children.** A nil child in a filter is `None`. Validation dereferences every child, so in Go a nil child panics. The model reports that panic as the fault `NilDereference`. The compiler instead stops at a nil child, as Go does.
- **Sub-queries.** `Field`, `Table` and `FilterValue` delegate a sub-query to `SelectQuery.ToSQLWithArgsWithAlias`. That method is not part of this model: the package's select builder has no such method. The nodes are therefore generic over the sub-query type `Q` and take its compiler as a parameter `sub`. Nothing is assumed about `sub`.
- **Insert's map** is a Dafny `map<string, seq<Value>>`. Its columns are the keys in ascending string order, which `sort.Slice` produces whatever the map's iteration order.
- **Update's map** is walked twice in Go, once by `validate` and once by the renderer. Each walk's order is unspecified and may differ between the two. The model takes both orders as parameters (`check`, `emit`), and any enumeration of the keys is allowed.

Where the code and the package's own description disagree, the model follows the code:

- `SelectQuery.ToSQLWithArgs` never checks the dialect itself (select_query.go:71-126). Only a filter checks it. A select without a filter in an empty or unknown dialect therefore succeeds, with an empty limit placeholder (`SelectQueries.UncheckedDialect`).
- `getPlaceholder` is defined twice with identical bodies, in dialect.go:20-49 and helper.go:29-58. One function, `Dialects.Placeholder`, models both.
- `Select()` sets the limit bound `maxTake` to 100. A struct literal leaves it at 0, and then every take fails validation (`SelectQueries.LiteralRejectsEveryTake`).

## Model

| member | source | states |
|---|---|---|
| Dialects.Placeholder | dialect.go:20-49 | the output is the tokens of the index range joined by ", ": "?" per position in MySQL and "$i" per position, ascending, in Postgres |
| Dialects.Tokens | dialect.go:23-44 | a valid range in a known dialect has exactly end − start + 1 tokens; an invalid range or unknown dialect has none |
| Dialects.CollectTokensIsTokens | dialect.go:32-44 | the append loop over start..end builds exactly the reference token list |
| Dialects.PlaceholderBadRange | dialect.go:23-25 | start ≤ 0, end ≤ 0 or end < start renders "", whatever the dialect |
| Dialects.PlaceholderUnknownDialect | dialect.go:46-47 | any dialect other than mysql and postgres renders "" |
| Dialects.PlaceholderSingle | dialect.go:27-40 | a single position renders "?" in MySQL and "$" plus the decimal index in Postgres |
| Dialects.MySQLCountOnly | dialect.go:28-35 | MySQL output depends only on the number of positions, not on where the range starts |
| Dialects.PostgresTokensDistinct | dialect.go:41-44 | Postgres tokens of one range are pairwise distinct, since each names its own position |
| Dialects.PlaceholderSnoc | dialect.go:32-44 | extending a range by one position appends ", " and that position's single placeholder |
| Text.Decimal | dialect.go:39 | `%d` of a non-negative index is a non-empty string of digits without a leading zero |
| Text.DecimalRoundTrip | dialect.go:42 | the decimal spelling parses back to the index it spells |
| Text.DecimalInjective | dialect.go:42 | distinct indices never get the same spelling |
| Text.SortedStrings | insert_query.go:47-49 | the sorted key list has each key exactly once and is strictly ascending |
| Text.AscendingUnique | insert_query.go:47-49 | two strictly ascending lists of the same strings are equal, so the sort result does not depend on map order |
| Text.JoinEmpty | filter.go:280-289 | a join of non-empty fragments is empty exactly when there are no fragments |
| Values.AllowedScalarIffPlain | allowed_kind_value.go:5-22 | "allowed and neither array nor slice" holds exactly for bools, integers of every width and sign, floats and strings |
| Values.AllowedClassification | allowed_kind_value.go:5-22 | arrays and slices are whitelisted but are not scalars; nil, Interface and the opaque kinds are never allowed |
| Values.NonNilOrAllowedIsNonNil | filter.go:91 | since nil has kind Invalid, "non-nil or allowed kind" is the same as "non-nil" |
| Values.FirstUnbindable | insert_query.go:107-115 | the value loop finds nothing exactly when every value is nil or an allowed scalar; otherwise it reports the kind of a failing value |
| Values.CopyItems | helper.go:21-24 | the copy loop appends every element in order |
| Values.InterfaceSlice | helper.go:10-27 | a slice or array gives its elements in order, with no element check; any other value fails with "unsupported <kind> value type" |
| Filters.OperatorClassesDisjoint | filter.go:201-259 | the four operator classes are disjoint, so each known operator takes exactly one branch |
| Filters.FirstBadElement | filter.go:139-143 | the element loop finds nothing exactly when every element kind is an allowed scalar |
| Filters.LeafErrorIffMalformed | filter.go:103-149 | a leaf passes its checks exactly when it is well formed: field and operator set; a value exactly when not a null check, and then of an allowed kind; a non-empty list of allowed scalars exactly for in/not_in; a string for like/not_like |
| Filters.NodeErrorIffMalformed | filter.go:83-101 | a node's own checks pass exactly when a logic node has children and nothing else, or a node without logic is a well-formed leaf |
| Filters.ValidateIffWellFormed | filter.go:80-159 | validation passes exactly when every node of the tree is well formed and no child is nil |
| Filters.ValidateChildrenIffWellFormed | filter.go:151-156 | the child loop passes exactly when children i.. are present and well formed |
| Filters.Validate | filter.go:80-101 | a node's own shape error is reported before any child is visited |
| Filters.ConsistentElementCheck | filter.go:139-143 | for a list of a concrete element type, the element check passes exactly when every item is a bool, an integer, a float or a string |
| Filters.FlattenElements | filter.go:161-181 | flattening succeeds exactly for a list of allowed-scalar elements and then yields the elements in order; a value that is not a slice or array fails with "unsupported <kind> value type", and a list with a bad element fails with "unsupported <kind> type of element value" for the first bad element the validator's loop finds |
| Filters.Compile | filter.go:183-297 | a compile error comes with empty text; a successful compile extends the caller's arguments; an in/not in leaf whose value does not flatten fails with nil arguments and the flatten message followed by " for operator <op>" |
| Filters.CompileChildren | filter.go:265-296 | the child loop has the same two guarantees as the compiler |
| Filters.CompileArgs | filter.go:196-297 | a successful compile returns the caller's arguments followed by exactly the tree's bound values, in pre-order, left to right |
| Filters.ChildrenArgs | filter.go:265-285 | the child loop appends the bound values of children i.., stopping at a nil child |
| Filters.ValidCompiles | filter.go:299-306 | a tree that validates compiles without error in every non-empty dialect |
| Filters.ToSQLWithArgs | filter.go:299-306 | a validation error returns "" with the caller's arguments unchanged |
| Filters.ToSQLWithArgsOutcome | filter.go:299-306 | validation error first, then "dialect is required" (both with the caller's arguments); otherwise success with the tree's values appended |
| Filters.RootVsNested | filter.go:287-294 | a logic node as the root renders without the outer parentheses it gets when nested; arguments and errors are the same |
| Filters.BlankChildrenTolerated | filter.go:261-289 | a logic node whose children are all nil or empty filters renders "" with the arguments unchanged and no error |
| Filters.NilChildStops | filter.go:271-273 | a nil child ends its node with "" and the arguments of the children before it |
| FilterShape.RangeElements | filter.go:231-234 | the position range a..b lists a, a+1, …, b |
| FilterShape.LeafShape | filter.go:201-258 | each leaf kind has its layout: column, operator, and a placeholder group for the positions it binds |
| FilterShape.MembershipLayoutText | filter.go:220-237 | an in/not in leaf renders "<field> <sym> (<placeholders of its n positions>)" |
| FilterShape.PatternLayoutText | filter.go:239-258 | a pattern leaf renders "<field> <keyword> concat('%', <ph>, '%')", with like/not like in MySQL and ilike/not ilike in Postgres |
| FilterShape.LeafRendersShape | filter.go:201-258 | a compiled leaf's text is its layout rendered in the dialect |
| FilterShape.RenderLogicShape | filter.go:280-296 | a logic node's layout renders as its children's non-empty texts joined by the logic word, parenthesised unless root |
| FilterShape.CompileRendersShape | filter.go:183-297 | the compiled text of any tree without nil children is its layout rendered in the dialect |
| FilterShape.ShapePositions | filter.go:196-285 | the placeholder groups of the layout, read left to right, name positions n+1 … n+k for the k bound values |
| FilterShape.ValidHasNoNil | filter.go:151-156 | a tree that validates has no nil child anywhere |
| FilterShape.EmptyShapeEmptyText | filter.go:280-282 | a child's layout is empty exactly when its rendered text is, so empty fragments are the ones skipped |
| FilterShape.PositionalPlaceholders | filter.go:183-306 | for a valid tree in a non-empty dialect, the k-th placeholder names position \|args\|+k+1 of the returned list, which holds the k-th bound value |
| FilterShape.CompiledLayout | filter.go:183-297 | the same positional statement for the compiler run as root |
| FilterShape.DialectsShareLayout | filter.go:183-297 | MySQL and Postgres compile a valid tree to the same layout and the same arguments; only placeholders and the pattern keyword differ |
| Statements.WithWhere | select_query.go:96-98 | " where <clause>" is appended exactly when the clause is non-empty |
| Statements.Parenthesize | field.go:72 | the sub-query text reads back between one pair of parentheses |
| Statements.WithAlias | field.go:93-95 | " as <alias>" is appended exactly when the alias is set |
| Statements.FilterStepOutcome | select_query.go:90-99 | the builders' filter step reports the filter's validation error, then "dialect is required"; otherwise it appends the rendered layout after " where " and the filter's values after the builder's own |
| Sorts.EffectiveDirection | sort.go:47-49 | the rendered direction is never empty; a given direction is kept verbatim |
| Sorts.SortToSQL | sort.go:35-55 | the call fails exactly when the field is empty, with "field is required" |
| Sorts.SortTextSplits | sort.go:47-52 | the text is the field, one space and the direction: the given one, or "asc" when none is given |
| Sorts.SortWriteBackIdempotent | sort.go:47-49 | the write-back changes only an empty direction, and a second call returns the same text and record |
| SelectQueries.Select | select_query.go:18-23 | the constructor keeps the fields, sets maxTake to 100 and leaves everything else empty |
| SelectQueries.SelectErrorIffMalformed | select_query.go:45-69 | validation passes exactly when there are fields, none empty, a table, and 0 < take ≤ maxTake |
| SelectQueries.LiteralRejectsEveryTake | select_query.go:60-66 | with maxTake 0, a missing take fails with "take is required" and any other take fails with "maximum take is 0" |
| SelectQueries.OrderTermsMatchRendered | select_query.go:101-119 | the sort loop skips nil sorts, fails exactly when a present sort has no field, and otherwise yields the rendered present sorts in order |
| SelectQueries.SortTermsOutcome | select_query.go:101-119 | the order-by terms are the present sorts rendered in order, and fail exactly when one of them lacks a field |
| SelectQueries.SelectBodyOutcome | select_query.go:87-99 | the head and where clause fail exactly when a present filter does not validate or the dialect is empty, and bind the filter's values |
| SelectQueries.SelectToSQL | select_query.go:82-85 | a validation error is returned before anything is rendered |
| SelectQueries.SelectOutcome | select_query.go:71-126 | a select succeeds exactly when the record, the filter and the sorts are accepted; its text is head, where, order by and limit, and its arguments are the filter's values then the take |
| SelectQueries.LimitIsLast | select_query.go:121-123 | the take is always the last argument, and in Postgres the text ends " limit $<number of arguments>" |
| SelectQueries.UncheckedDialect | select_query.go:121-123 | without a filter an unknown dialect is not rejected, and the text ends in an empty limit placeholder |
| Fields.NewField | field.go:12-16 | a column entry starts with no table, sub-query or alias |
| Fields.NewSelectQueryField | field.go:18-22 | a sub-query entry starts with no column, table or alias |
| Fields.FieldErrorIffRejected | field.go:34-52 | validation passes exactly for a named dialect with exactly one of column and sub-query, a sub-query having an alias; the dialect is checked first, and a missing column before a conflict |
| Fields.ColumnReferenceReadsBack | field.go:75-77 | a qualified column reads back as the table, a dot and the column |
| Fields.FieldOutcome | field.go:54-80 | a rejected entry reports its error; a column entry keeps the arguments; a sub-query entry fails exactly when the sub-query does and otherwise is its text in parentheses with its arguments |
| Fields.SubQueryIgnoresTable | field.go:75-77 | the table never qualifies a sub-query entry |
| Fields.FieldAliasOutcome | field.go:82-98 | the aliased form fails exactly when the plain one does, and appends " as <alias>" exactly when the alias is set |
| Tables.NewTable | table.go:11-15 | a named table starts with no sub-query or alias |
| Tables.NewSelectQueryTable | table.go:17-21 | a sub-query table starts with no name or alias |
| Tables.TableErrorIffRejected | table.go:28-46 | validation passes exactly for a named dialect with exactly one of name and sub-query, a sub-query having an alias; unlike a field, a conflict is reported before a missing name |
| Tables.TableOutcome | table.go:48-70 | a named table renders its name with the arguments unchanged; a sub-query table fails exactly when the sub-query does and otherwise is its text in parentheses with its arguments |
| Tables.TableAliasOutcome | table.go:72-88 | the aliased form fails exactly when the plain one does, and appends " as <alias>" exactly when the alias is set |
| FilterValueNodes.FilterValueError | filter_value.go:22-28 | the only validation error is an empty dialect |
| FilterValueNodes.FilterValueOutcome | filter_value.go:30-55 | any value, nil included, is bound as one new last argument with empty text; a sub-query fails exactly when it does and otherwise is its text in parentheses with its arguments |
| FilterValueNodes.SubQueryIgnoresValue | filter_value.go:47-54 | with a sub-query, the plain value plays no part |
| InsertQueries.Insert | insert_query.go:16-20 | a new insert has no table and no fields |
| InsertQueries.AddValue | insert_query.go:27-30 | a value goes to the end of its field's list, creating the field if new; no other field changes |
| InsertQueries.Columns | insert_query.go:39-49 | the columns are exactly the map's keys, each once, strictly ascending |
| InsertQueries.ColumnsUnique | insert_query.go:47-49 | any ascending ordering of the keys is the column list |
| InsertQueries.LongestIsMaximum | insert_query.go:40-45 | the row count is the length of the longest column, or 0 without columns |
| InsertQueries.RowOfComplete | insert_query.go:52-64 | row r has every column exactly when every column reaches r, and then holds value r of each column in column order |
| InsertQueries.Rows | insert_query.go:51-64 | there are as many rows as requested, and row r is the r-th values of the columns that have one |
| InsertQueries.RowsCompleteIffEqualLengths | insert_query.go:51-64 | every row is complete exactly when all columns have the same length |
| InsertQueries.RowsErrorNone | insert_query.go:95-116 | the row loop passes exactly when every row is as wide as the columns and holds only nil or allowed scalars |
| InsertQueries.InsertErrorIffRejected | insert_query.go:69-119 | validation passes exactly when there is a table, at least one field, no empty field name, all columns of one positive length and every value nil or an allowed scalar |
| InsertQueries.AcceptedColumns | insert_query.go:85-116 | once the table and names have passed, the row checks pass exactly when the map's columns are accepted |
| InsertQueries.InsertOutcome | insert_query.go:121-138 | an insert succeeds exactly when accepted under a named dialect; a validation error wins over an empty dialect |
| InsertQueries.RowGroupsLayout | insert_query.go:143-155 | the row loop appends the rows in order and gives row k the group of the positions its values took |
| InsertQueries.FlattenAt | insert_query.go:150 | in rows of width w, value j of row r lands at position r·w + j |
| InsertQueries.GroupsFromAt | insert_query.go:151-154 | group k names the positions after the first start + k·w arguments |
| InsertQueries.AcceptedShape | insert_query.go:32-67 | an accepted map's columns all have the row count as length, and its rows read the columns side by side |
| InsertQueries.InsertStatementLayout | insert_query.go:143-157 | rows of the columns' width bind their values row after row, and group k holds the placeholders of positions k·w+1 … k·w+w |
| InsertQueries.InsertArgs | insert_query.go:140-155 | argument r·w + j is value r of the j-th sorted column |
| InsertQueries.InsertText | insert_query.go:143-157 | the text is "insert into <table>(<sorted columns>) values " followed by one parenthesised group per row, numbering continuing across rows |
| UpdateQueries.Update | update_query.go:16-21 | a new update has the table, no fields and no filter |
| UpdateQueries.Set | update_query.go:23-26 | setting a field maps it to the value, replacing an earlier one; no other field changes |
| UpdateQueries.EntriesErrorFirst | update_query.go:42-54 | the entry loop passes exactly when every entry passes, and otherwise reports the first rejected entry of the walk |
| UpdateQueries.UpdateErrorIffRejected | update_query.go:33-61 | validation passes exactly when there is a table, at least one field, no empty field name, every value nil or an allowed scalar, and a filter, whatever the walk order |
| UpdateQueries.VerdictIndependentOfWalk | update_query.go:42-54 | two walks agree on whether validation passes, and on the message too unless some entry is rejected |
| UpdateQueries.ValuesInOrder | update_query.go:80-88 | the bound values are the map's values in walk order |
| UpdateQueries.SetClausesLayout | update_query.go:80-92 | each entry appends its value and a "<field> = <ph>" clause whose placeholder names that value's position |
| UpdateQueries.SetClausesFromStart | update_query.go:80-92 | from no arguments, clause k is "<field k> = " with the placeholder of position k+1 |
| UpdateQueries.SetClauseNumbering | update_query.go:87-90 | in Postgres clause k reads "<field> = $<k+1>", in MySQL "<field> = ?" |
| UpdateQueries.UpdateOutcome | update_query.go:63-108 | validation error first, then the filter's own error, then "dialect is required"; on success the set list, then the filter's layout numbered on from the set values, with arguments the set values then the filter's |
| UpdateQueries.UpdateSucceedsIff | update_query.go:63-108 | an update succeeds exactly when it is accepted, its filter validates and the dialect is named |
| DeleteQueries.Delete | delete_query.go:13-15 | a new delete has no table and no filter |
| DeleteQueries.DeleteOutcome | delete_query.go:27-67 | a missing table, then a missing filter, then the filter's error, then "dialect is required"; on success "delete from <table>" with the filter's layout numbered from 1, and exactly the filter's values as arguments |

## Left out

- Go reflection is replaced by the closed `Value` datatype. The only floats are opaque tokens, because the package never computes with them.
- `deepEqual` (test_helper.go) and the `*_test.go` files are left out: they are test support only.
- constant.go is not part of this model. It holds only constant tables and error values, some duplicating declarations in the modelled files. The message strings are taken from the files that use them.
- The fluent setters (`From`, `Where`, `Into`, `OrderBy`, `Limit`, `As`, `FromTable`, `SetLogic`, `SetCondition`, `AddFilter`, `AddFilters`, `NewFilter`, `NewSort`, `NewFilterValue`, `NewSelectQueryFilterValue`) only assign record members. Records are built directly instead. `AddValue` and `Set` are modelled because they have merge semantics.
- `SelectQuery.ToSQLWithArgsWithAlias` is not part of this model. The nodes that call it take its behaviour as the parameter `sub`.
- Go nil versus empty slices are not distinguished. A failing in/not in flatten returns nil arguments in Go; the model returns an empty list.
- Sorts.SortToSQL: `SelectQuery.ToSQLWithArgs` writes the default direction back into the caller's `Sort` records through their pointers. The model returns the updated record, and the select discards it.
- UpdateQueries.UpdateToSQL: Go's random map order is not modelled as randomness. Each walk is an explicit parameter, and the contracts hold for every pair of walks.
- InsertQueries.RowCount: Go raises the row count while walking the map in its own order. The model takes the maximum over the sorted columns, which gives the same number.
- Cyclic filters and sub-queries: Go's children and sub-query links are pointers, so a filter can contain itself, and then `validate` and `toSQLWithArgs` recurse until the stack overflows. A Dafny datatype is finite, so such inputs cannot be expressed, and the model says nothing about them.
- Strings are sequences of Unicode scalar values, whereas a Go string is arbitrary bytes. Names that are not valid UTF-8 cannot be expressed, and `Text.Below`, the model of Go's byte-wise `<`, agrees with Go only on valid UTF-8.
- Values.Value: a list's element kind is not tied to its items, so lists that no Go program can build (a `[]string` holding an int) are expressible. The builders read only the element kind, as `reflect` does, so every contract holds for them too. `Values.Consistent` names the lists Go can build, and `Filters.ConsistentElementCheck` restates the element check on their items.
- Integer widths: `Take`, `maxTake` and indices are unbounded naturals, because no overflow is reachable through the package's inputs.
- Filter validation panics on a nil child. The model reports this as the fault `NilDereference` and does not model the crash itself.
