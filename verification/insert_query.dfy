/**
  The insert statement builder (`InsertQuery`). Values are collected per
  column; the columns are the map's keys in ascending byte order, and the
  rows are obtained by reading the columns side by side, row `r` holding
  the `r`-th value of every column that has one.
 */
module InsertQueries {
  import opened Outcomes
  import opened Text
  import opened Values
  import opened Dialects
  import opened Statements

  datatype InsertQuery = InsertQuery(table: string, fieldsValues: map<string, seq<Value>>)

  /** `Insert()`: no table and no columns yet. */
  function Insert(): (q: InsertQuery)
    ensures q.table == "" && |q.fieldsValues| == 0
  {
    InsertQuery("", map[])
  }

  /** `InsertQuery.Value(field, value)`: the value goes to the end of its
      column, a new column when the field is new; no other column changes. */
  function AddValue(q: InsertQuery, field: string, value: Value): (r: InsertQuery)
    ensures r.table == q.table
    ensures r.fieldsValues.Keys == q.fieldsValues.Keys + {field}
    ensures r.fieldsValues[field]
         == (if field in q.fieldsValues then q.fieldsValues[field] else []) + [value]
    ensures forall c :: c in q.fieldsValues && c != field ==> r.fieldsValues[c] == q.fieldsValues[c]
  {
    var prior := if field in q.fieldsValues then q.fieldsValues[field] else [];
    q.(fieldsValues := q.fieldsValues[field := prior + [value]])
  }

  // ---------------------------------------------------------------------
  // Columns and rows (`getColumnsAndRowsValues`)

  /** The columns: every key once, ascending. */
  function Columns(q: InsertQuery): (cols: seq<string>)
    ensures forall c :: c in q.fieldsValues <==> c in cols
    ensures |cols| == |q.fieldsValues|
    ensures StrictlyAscending(cols)
  {
    SortedStrings(q.fieldsValues.Keys)
  }

  /** Any ordering of the keys that is ascending is the column list: the
      order does not depend on how the sort visits the map. */
  lemma ColumnsUnique(q: InsertQuery, xs: seq<string>)
    requires StrictlyAscending(xs) && forall x :: x in xs <==> x in q.fieldsValues
    ensures xs == Columns(q)
  {
    AscendingUnique(xs, Columns(q));
  }

  /** The value lists of the columns, in column order. */
  function ColumnValues(q: InsertQuery): (cs: seq<seq<Value>>)
    ensures |cs| == |Columns(q)|
    ensures forall j :: 0 <= j < |cs| ==> cs[j] == q.fieldsValues[Columns(q)[j]]
  {
    var cols := Columns(q);
    seq(|cols|, j requires 0 <= j < |cols| => q.fieldsValues[cols[j]])
  }

  /** The row count: a running maximum raised column by column. */
  function Longest(cs: seq<seq<Value>>): nat {
    if |cs| == 0 then 0
    else
      var n := Longest(cs[..|cs| - 1]);
      var len := |cs[|cs| - 1]|;
      if n < len then len else n
  }

  /** The running maximum is the length of the longest column, and 0 when
      there are no columns. */
  lemma {:induction false} LongestIsMaximum(cs: seq<seq<Value>>)
    ensures forall j :: 0 <= j < |cs| ==> |cs[j]| <= Longest(cs)
    ensures |cs| == 0 ==> Longest(cs) == 0
    ensures |cs| > 0 ==> exists j :: 0 <= j < |cs| && |cs[j]| == Longest(cs)
  {
    if |cs| > 0 {
      var front := cs[..|cs| - 1];
      LongestIsMaximum(front);
      assert forall j :: 0 <= j < |front| ==> front[j] == cs[j];
      if |front| > 0 {
        var j :| 0 <= j < |front| && |front[j]| == Longest(front);
        assert |cs[j]| == Longest(front);
      }
    }
  }

  /** Row `r`: in column order, the `r`-th value of each column long enough
      to have one. */
  function RowOf(cs: seq<seq<Value>>, r: nat): (row: seq<Value>)
    ensures |row| <= |cs|
  {
    if |cs| == 0 then []
    else
      var last := cs[|cs| - 1];
      RowOf(cs[..|cs| - 1], r) + (if r < |last| then [last[r]] else [])
  }

  /** A row is complete exactly when every column reaches it, and a complete
      row reads the columns side by side. */
  lemma {:induction false} RowOfComplete(cs: seq<seq<Value>>, r: nat)
    ensures |RowOf(cs, r)| == |cs| <==> forall j :: 0 <= j < |cs| ==> r < |cs[j]|
    ensures |RowOf(cs, r)| == |cs| ==> forall j :: 0 <= j < |cs| ==> RowOf(cs, r)[j] == cs[j][r]
  {
    if |cs| > 0 {
      var front := cs[..|cs| - 1];
      RowOfComplete(front, r);
      assert forall j :: 0 <= j < |front| ==> front[j] == cs[j];
    }
  }

  /** The first `n` rows. */
  function Rows(cs: seq<seq<Value>>, n: nat): (rows: seq<seq<Value>>)
    ensures |rows| == n
    ensures forall r :: 0 <= r < n ==> rows[r] == RowOf(cs, r)
  {
    if n == 0 then [] else Rows(cs, n - 1) + [RowOf(cs, n - 1)]
  }

  function RowCount(q: InsertQuery): nat {
    Longest(ColumnValues(q))
  }

  function RowsOf(q: InsertQuery): seq<seq<Value>> {
    Rows(ColumnValues(q), RowCount(q))
  }

  /** Every row up to the longest column is complete exactly when all
      columns have the same length. */
  lemma RowsCompleteIffEqualLengths(cs: seq<seq<Value>>)
    ensures (forall r :: 0 <= r < Longest(cs) ==> |RowOf(cs, r)| == |cs|)
        <==> forall i, j :: 0 <= i < |cs| && 0 <= j < |cs| ==> |cs[i]| == |cs[j]|
  {
    var n := Longest(cs);
    LongestIsMaximum(cs);
    if forall r :: 0 <= r < n ==> |RowOf(cs, r)| == |cs| {
      forall i | 0 <= i < |cs|
        ensures |cs[i]| == n
      {
        if |cs[i]| < n {
          RowOfComplete(cs, |cs[i]|);
        }
      }
    } else {
      var r :| 0 <= r < n && |RowOf(cs, r)| != |cs|;
      RowOfComplete(cs, r);
      var i :| 0 <= i < |cs| && r >= |cs[i]|;
      var j :| 0 <= j < |cs| && |cs[j]| == n;
      assert |cs[i]| != |cs[j]|;
    }
  }

  // ---------------------------------------------------------------------
  // Validation

  /** The row loop of `InsertQuery.validate`: row by row, first the width,
      then the values left to right. */
  function RowsError(rows: seq<seq<Value>>, width: nat, i: nat): (r: Option<string>)
    requires i <= |rows|
    decreases |rows| - i
  {
    if i == |rows| then None
    else if |rows[i]| != width then Some("value length is not equal to fields length")
    else match FirstUnbindable(rows[i], 0)
      case Some(k) => Some(UnsupportedValueType(k))
      case None => RowsError(rows, width, i + 1)
  }

  /** A row the validation loop lets through. */
  predicate RowOk(row: seq<Value>, width: nat) {
    |row| == width && forall j :: 0 <= j < |row| ==> Bindable(row[j])
  }

  /** The row loop passes exactly when every row has the width and holds
      only bindable values. */
  lemma {:induction false} RowsErrorNone(rows: seq<seq<Value>>, width: nat, i: nat)
    requires i <= |rows|
    ensures RowsError(rows, width, i).None? <==> forall k :: i <= k < |rows| ==> RowOk(rows[k], width)
    decreases |rows| - i
  {
    if i < |rows| {
      RowsErrorNone(rows, width, i + 1);
      if RowsError(rows, width, i).None? {
        assert RowOk(rows[i], width);
      }
    }
  }

  /** `InsertQuery.validate`, check by check in source order. */
  function InsertError(q: InsertQuery): Option<string> {
    if q.table == "" then Some("table is required")
    else
      var cols := Columns(q);
      if |cols| == 0 then Some("fields is required")
      else if "" in cols then Some("field is required")
      else if |RowsOf(q)| == 0 then Some("values is required")
      else RowsError(RowsOf(q), |cols|, 0)
  }

  /** What validation accepts of the columns, stated on the map: at least
      one field, no empty field name, all columns of one positive length,
      and every value bindable. */
  predicate ColumnsAccepted(m: map<string, seq<Value>>) {
    && |m| > 0
    && "" !in m
    && (forall c :: c in m ==> |m[c]| > 0)
    && (forall c, c' :: c in m && c' in m ==> |m[c]| == |m[c']|)
    && (forall c, i :: c in m && 0 <= i < |m[c]| ==> Bindable(m[c][i]))
  }

  predicate InsertAccepted(q: InsertQuery) {
    q.table != "" && ColumnsAccepted(q.fieldsValues)
  }

  /** `cs` holds the value lists of the map's keys `cols`, in that order. */
  predicate Lists(m: map<string, seq<Value>>, cols: seq<string>, cs: seq<seq<Value>>) {
    && |cs| == |cols|
    && (forall j :: 0 <= j < |cols| ==> cols[j] in m && cs[j] == m[cols[j]])
    && (forall c :: c in m ==> c in cols)
  }

  lemma ColumnValuesList(q: InsertQuery)
    ensures Lists(q.fieldsValues, Columns(q), ColumnValues(q))
  {
  }

  /** The column lists have equal lengths exactly when the map's columns do. */
  lemma EqualLengthsOnMap(m: map<string, seq<Value>>, cols: seq<string>, cs: seq<seq<Value>>)
    requires Lists(m, cols, cs)
    ensures (forall i, j :: 0 <= i < |cs| && 0 <= j < |cs| ==> |cs[i]| == |cs[j]|)
        <==> forall c, c' :: c in m && c' in m ==> |m[c]| == |m[c']|
  {
    if forall i, j :: 0 <= i < |cs| && 0 <= j < |cs| ==> |cs[i]| == |cs[j]| {
      forall c, c' | c in m && c' in m
        ensures |m[c]| == |m[c']|
      {
        var i :| 0 <= i < |cols| && cols[i] == c;
        var j :| 0 <= j < |cols| && cols[j] == c';
        assert |cs[i]| == |cs[j]|;
      }
    }
  }

  /** Columns of one length `n` give `n` complete rows that read the
      columns side by side. */
  lemma UniformRows(cs: seq<seq<Value>>, n: nat)
    requires |cs| > 0 && forall j :: 0 <= j < |cs| ==> |cs[j]| == n
    ensures Longest(cs) == n
    ensures var rows := Rows(cs, n);
      && Uniform(rows, |cs|)
      && forall r, j :: 0 <= r < n && 0 <= j < |cs| ==> rows[r][j] == cs[j][r]
  {
    LongestIsMaximum(cs);
    var rows := Rows(cs, n);
    forall r | 0 <= r < n
      ensures |rows[r]| == |cs| && forall j :: 0 <= j < |cs| ==> rows[r][j] == cs[j][r]
    {
      RowOfComplete(cs, r);
    }
  }

  /** Rows that read the map's columns side by side hold only bindable
      values exactly when the map does. */
  lemma RowsBindable(m: map<string, seq<Value>>, cols: seq<string>, cs: seq<seq<Value>>,
                     n: nat, rows: seq<seq<Value>>)
    requires Lists(m, cols, cs)
    requires |rows| == n && Uniform(rows, |cs|)
    requires forall j :: 0 <= j < |cs| ==> |cs[j]| == n
    requires forall r, j :: 0 <= r < n && 0 <= j < |cs| ==> rows[r][j] == cs[j][r]
    ensures (forall k :: 0 <= k < n ==> RowOk(rows[k], |cs|))
        <==> forall c, i :: c in m && 0 <= i < |m[c]| ==> Bindable(m[c][i])
  {
    if forall k :: 0 <= k < n ==> RowOk(rows[k], |cs|) {
      forall c, i | c in m && 0 <= i < |m[c]|
        ensures Bindable(m[c][i])
      {
        var j :| 0 <= j < |cols| && cols[j] == c;
        assert RowOk(rows[i], |cs|);
        assert rows[i][j] == cs[j][i];
      }
    }
    if forall c, i :: c in m && 0 <= i < |m[c]| ==> Bindable(m[c][i]) {
      forall k | 0 <= k < n
        ensures RowOk(rows[k], |cs|)
      {
        forall j | 0 <= j < |rows[k]|
          ensures Bindable(rows[k][j])
        {
          assert rows[k][j] == m[cols[j]][k];
        }
      }
    }
  }

  /** Validation passes exactly for accepted inserts. */
  lemma InsertErrorIffRejected(q: InsertQuery)
    ensures InsertError(q).None? <==> InsertAccepted(q)
  {
    var m, cols, cs := q.fieldsValues, Columns(q), ColumnValues(q);
    if q.table != "" && |cols| > 0 && "" !in cols {
      ColumnValuesList(q);
      AcceptedColumns(m, cols, cs);
    }
  }

  /** Once the table and the field names have passed, the row checks pass
      exactly when the map's columns are accepted. */
  lemma AcceptedColumns(m: map<string, seq<Value>>, cols: seq<string>, cs: seq<seq<Value>>)
    requires Lists(m, cols, cs) && |cols| > 0 && "" !in cols
    ensures var rows := Rows(cs, Longest(cs));
      RowsError(rows, |cols|, 0).None? && |rows| > 0 <==> ColumnsAccepted(m)
  {
    EqualLengthsOnMap(m, cols, cs);
    if forall i, j :: 0 <= i < |cs| && 0 <= j < |cs| ==> |cs[i]| == |cs[j]| {
      AcceptedEqual(m, cols, cs, |cs[0]|);
    } else {
      AcceptedUnequal(m, cols, cs);
    }
  }

  lemma AcceptedUnequal(m: map<string, seq<Value>>, cols: seq<string>, cs: seq<seq<Value>>)
    requires Lists(m, cols, cs)
    requires !forall c, c' :: c in m && c' in m ==> |m[c]| == |m[c']|
    requires !forall i, j :: 0 <= i < |cs| && 0 <= j < |cs| ==> |cs[i]| == |cs[j]|
    ensures RowsError(Rows(cs, Longest(cs)), |cols|, 0).Some? && !ColumnsAccepted(m)
  {
    var rows := Rows(cs, Longest(cs));
    RowsCompleteIffEqualLengths(cs);
    var r :| 0 <= r < Longest(cs) && |RowOf(cs, r)| != |cs|;
    RowsErrorNone(rows, |cols|, 0);
    assert !RowOk(rows[r], |cols|);
  }

  lemma AcceptedEqual(m: map<string, seq<Value>>, cols: seq<string>, cs: seq<seq<Value>>, n: nat)
    requires Lists(m, cols, cs) && |cols| > 0 && "" !in cols
    requires forall j :: 0 <= j < |cs| ==> |cs[j]| == n
    ensures var rows := Rows(cs, Longest(cs));
      RowsError(rows, |cols|, 0).None? && |rows| > 0 <==> ColumnsAccepted(m)
  {
    UniformRows(cs, n);
    var rows := Rows(cs, n);
    RowsErrorNone(rows, |cols|, 0);
    RowsBindable(m, cols, cs, n, rows);
    assert cols[0] in m && |m[cols[0]]| == n;
    assert forall c :: c in m ==> |m[c]| == n by {
      forall c | c in m
        ensures |m[c]| == n
      {
        var j :| 0 <= j < |cols| && cols[j] == c;
      }
    }
  }

  // ---------------------------------------------------------------------
  // The statement

  /** The row loop of `ToSQLWithArgs`: each row's values are appended and
      `group(end, len)` renders the group of the `len` positions that end
      at `end`, the positions the row's values took. */
  function RowGroups(rows: seq<seq<Value>>, group: (nat, nat) -> string, i: nat,
                     args: seq<Value>, groups: seq<string>): (seq<Value>, seq<string>)
    requires i <= |rows|
    decreases |rows| - i
  {
    if i == |rows| then (args, groups)
    else
      var args' := args + rows[i];
      RowGroups(rows, group, i + 1, args', groups + [group(|args'|, |rows[i]|)])
  }

  /** One row's group: the placeholders of the last `len` of `end` positions,
      in parentheses. */
  function RowGroup(d: Dialect, end: nat, len: nat): string {
    Parenthesize(Placeholder(d, end - (len - 1), end))
  }

  /** The group of each row in dialect `d`. */
  function Grouper(d: Dialect): (nat, nat) -> string {
    (end: nat, len: nat) => RowGroup(d, end, len)
  }

  /** `InsertQuery.ToSQLWithArgs`: validation comes before the dialect. */
  function InsertToSQL(q: InsertQuery, d: Dialect): Result<Statement> {
    match InsertError(q)
    case Some(msg) => Failure(Error(msg))
    case None =>
      if d == "" then Failure(Error("dialect is required"))
      else
        Success(InsertStatement(q.table, Columns(q), RowsOf(q), Grouper(d)))
  }

  /** The text and arguments of a validated insert: the rows' values in
      order, and one placeholder group per row. */
  function InsertStatement(table: string, cols: seq<string>, rows: seq<seq<Value>>,
                           group: (nat, nat) -> string): Statement {
    var (args, groups) := RowGroups(rows, group, 0, [], []);
    Statement("insert into " + table + "(" + Join(cols, ", ") + ") values " + Join(groups, ", "), args)
  }

  /** An insert succeeds exactly when it is accepted and the dialect is
      named; a rejected insert reports its validation error whatever the
      dialect. */
  lemma InsertOutcome(q: InsertQuery, d: Dialect)
    ensures var r := InsertToSQL(q, d);
      && (r.Success? <==> InsertAccepted(q) && d != "")
      && (!InsertAccepted(q) ==> InsertError(q).Some? && r == Failure(Error(InsertError(q).value)))
      && (InsertAccepted(q) && d == "" ==> r == Failure(Error("dialect is required")))
  {
    InsertErrorIffRejected(q);
  }

  /** The rows one after another. */
  function Flatten(rows: seq<seq<Value>>): seq<Value> {
    if |rows| == 0 then [] else rows[0] + Flatten(rows[1..])
  }

  predicate Uniform(rows: seq<seq<Value>>, width: nat) {
    forall k :: 0 <= k < |rows| ==> |rows[k]| == width
  }

  lemma {:induction false} FlattenLength(rows: seq<seq<Value>>, width: nat)
    requires Uniform(rows, width)
    ensures |Flatten(rows)| == |rows| * width
  {
    if |rows| > 0 {
      FlattenLength(rows[1..], width);
      assert |rows| * width == width + (|rows| - 1) * width;
    }
  }

  /** In rows of one width, value `j` of row `r` sits at position
      `r * width + j`. */
  lemma {:induction false} FlattenAt(rows: seq<seq<Value>>, width: nat, r: nat, j: nat)
    requires Uniform(rows, width) && r < |rows| && j < width
    ensures r * width + j < |Flatten(rows)| && Flatten(rows)[r * width + j] == rows[r][j]
    decreases r
  {
    var rest := rows[1..];
    assert Flatten(rows) == rows[0] + Flatten(rest);
    assert |rows[0]| == width;
    if r > 0 {
      FlattenAt(rest, width, r - 1, j);
      assert r * width + j == width + ((r - 1) * width + j);
      assert rows[r] == rest[r - 1];
    }
  }

  /** Group `k` of rows `width` wide: the placeholders of positions
      `k * width + 1 .. k * width + width` in parentheses. */
  function Group(d: Dialect, k: nat, width: nat): string {
    RowGroup(d, k * width + width, width)
  }

  /** `count` consecutive groups of rows `width` wide, the first following
      the first `start` arguments. */
  function GroupsFrom(group: (nat, nat) -> string, count: nat, start: nat, width: nat): seq<string> {
    if count == 0 then [] else [group(start + width, width)] + GroupsFrom(group, count - 1, start + width, width)
  }

  lemma {:induction false} GroupsFromLength(group: (nat, nat) -> string, count: nat, start: nat, width: nat)
    ensures |GroupsFrom(group, count, start, width)| == count
  {
    if count > 0 {
      GroupsFromLength(group, count - 1, start + width, width);
    }
  }

  /** Group `k` of the run follows the first `start + k * width` arguments. */
  lemma {:induction false} GroupsFromAt(group: (nat, nat) -> string, count: nat, start: nat, width: nat, k: nat)
    requires k < count
    ensures |GroupsFrom(group, count, start, width)| == count
    ensures GroupsFrom(group, count, start, width)[k] == group(start + k * width + width, width)
    decreases k
  {
    GroupsFromLength(group, count, start, width);
    if k > 0 {
      GroupsFromAt(group, count - 1, start + width, width, k - 1);
      assert start + width + (k - 1) * width == start + k * width;
    }
  }

  /** In rows of one positive width, the row loop appends the rows in order
      and gives each row the group of the positions its values took. */
  lemma {:induction false} RowGroupsLayout(rows: seq<seq<Value>>, group: (nat, nat) -> string, width: nat,
                                           i: nat, args: seq<Value>, groups: seq<string>)
    requires Uniform(rows, width) && i <= |rows|
    ensures RowGroups(rows, group, i, args, groups)
         == (args + Flatten(rows[i..]), groups + GroupsFrom(group, |rows| - i, |args|, width))
    decreases |rows| - i
  {
    if i == |rows| {
      assert rows[i..] == [];
      assert args + Flatten(rows[i..]) == args;
      assert groups + GroupsFrom(group, 0, |args|, width) == groups;
    } else {
      RowGroupsLayout(rows, group, width, i + 1, args + rows[i], groups + [group(|args| + width, width)]);
      RowGroupsCons(rows, group, width, i, args, groups);
    }
  }

  lemma RowGroupsCons(rows: seq<seq<Value>>, group: (nat, nat) -> string, width: nat, i: nat,
                      args: seq<Value>, groups: seq<string>)
    requires i < |rows| && |rows[i]| == width
    requires var ph := group(|args| + width, width);
      RowGroups(rows, group, i + 1, args + rows[i], groups + [ph])
      == (args + rows[i] + Flatten(rows[i + 1..]),
          groups + [ph] + GroupsFrom(group, |rows| - (i + 1), |args + rows[i]|, width))
    ensures RowGroups(rows, group, i, args, groups)
         == (args + Flatten(rows[i..]), groups + GroupsFrom(group, |rows| - i, |args|, width))
  {
    var ph := group(|args| + width, width);
    var tail := rows[i..];
    assert tail[0] == rows[i] && tail[1..] == rows[i + 1..];
    assert Flatten(tail) == rows[i] + Flatten(rows[i + 1..]);
    assert args + rows[i] + Flatten(rows[i + 1..]) == args + Flatten(tail);
    var rest := GroupsFrom(group, |rows| - (i + 1), |args| + width, width);
    assert GroupsFrom(group, |rows| - i, |args|, width) == [ph] + rest;
    assert groups + [ph] + rest == groups + ([ph] + rest);
  }

  /** An accepted map's columns all have the row count as length, and its
      rows are the columns read side by side. */
  lemma AcceptedShape(q: InsertQuery)
    requires InsertAccepted(q)
    ensures var m, cols, cs, rows, n := q.fieldsValues, Columns(q), ColumnValues(q), RowsOf(q), RowCount(q);
      && n > 0 && |cols| > 0 && |rows| == n
      && (forall c :: c in m ==> |m[c]| == n)
      && Uniform(rows, |cols|)
      && (forall r, j :: 0 <= r < n && 0 <= j < |cs| ==> rows[r][j] == cs[j][r])
  {
    var m, cols, cs := q.fieldsValues, Columns(q), ColumnValues(q);
    ColumnValuesList(q);
    var c0 :| c0 in m;
    var n := |m[c0]|;
    assert forall j :: 0 <= j < |cs| ==> |cs[j]| == n;
    UniformRows(cs, n);
  }

  /** The arguments read the columns row by row: `args[r * c + j]` is value
      `r` of column `j`, for `c` columns. */
  predicate ReadsRowByRow(args: seq<Value>, m: map<string, seq<Value>>, cols: seq<string>, n: nat) {
    && |args| == n * |cols|
    && forall r, j :: 0 <= r < n && 0 <= j < |cols| ==>
         && r * |cols| + j < |args| && cols[j] in m && r < |m[cols[j]]|
         && args[r * |cols| + j] == m[cols[j]][r]
  }

  /** Over rows as wide as the column list, the statement binds the rows'
      values one row after another, and group `k` names positions
      `k * c + 1 .. k * c + c` for `c` columns. */
  lemma InsertStatementLayout(table: string, cols: seq<string>, rows: seq<seq<Value>>, d: Dialect)
    requires Uniform(rows, |cols|)
    ensures var s := InsertStatement(table, cols, rows, Grouper(d));
      && s.args == Flatten(rows)
      && s.text == "insert into " + table + "(" + Join(cols, ", ") + ") values "
                   + Join(seq(|rows|, k requires 0 <= k < |rows| => Group(d, k, |cols|)), ", ")
  {
    InsertStatementGroups(table, cols, rows, Grouper(d));
    GroupsOfDialect(d, |rows|, |cols|);
  }

  lemma InsertStatementGroups(table: string, cols: seq<string>, rows: seq<seq<Value>>,
                              group: (nat, nat) -> string)
    requires Uniform(rows, |cols|)
    ensures var s := InsertStatement(table, cols, rows, group);
      && s.args == Flatten(rows)
      && s.text == "insert into " + table + "(" + Join(cols, ", ") + ") values "
                   + Join(GroupsFrom(group, |rows|, 0, |cols|), ", ")
  {
    RowGroupsLayout(rows, group, |cols|, 0, [], []);
    assert rows[0..] == rows;
    var (args, groups) := RowGroups(rows, group, 0, [], []);
    var all := GroupsFrom(group, |rows|, 0, |cols|);
    assert groups == [] + all == all;
    var prefix := "insert into " + table + "(" + Join(cols, ", ") + ") values ";
    assert InsertStatement(table, cols, rows, group) == Statement(prefix + Join(groups, ", "), args);
  }

  lemma GroupsOfDialect(d: Dialect, n: nat, w: nat)
    ensures GroupsFrom(Grouper(d), n, 0, w) == seq(n, k requires 0 <= k < n => Group(d, k, w))
  {
    GroupsOfDialectAt(d, n, w);
  }

  lemma GroupsOfDialectAt(d: Dialect, n: nat, w: nat)
    ensures var a := GroupsFrom(Grouper(d), n, 0, w);
      |a| == n && forall k :: 0 <= k < n ==> a[k] == Group(d, k, w)
  {
    GroupsFromLength(Grouper(d), n, 0, w);
    forall k | 0 <= k < n
      ensures GroupsFrom(Grouper(d), n, 0, w)[k] == Group(d, k, w)
    {
      GrouperAt(d, n, k, w);
    }
  }

  lemma GrouperAt(d: Dialect, n: nat, k: nat, w: nat)
    requires k < n
    ensures |GroupsFrom(Grouper(d), n, 0, w)| == n
    ensures GroupsFrom(Grouper(d), n, 0, w)[k] == Group(d, k, w)
  {
    GroupsFromFirstAt(Grouper(d), n, w, k);
  }

  lemma GroupsFromFirstAt(group: (nat, nat) -> string, count: nat, width: nat, k: nat)
    requires k < count
    ensures |GroupsFrom(group, count, 0, width)| == count
    ensures GroupsFrom(group, count, 0, width)[k] == group(k * width + width, width)
  {
    GroupsFromAt(group, count, 0, width, k);
  }

  /** Rows as wide as the column list, read side by side from the listed
      columns, flatten into values that read the columns row by row. */
  lemma FlattenReadsRowByRow(m: map<string, seq<Value>>, cols: seq<string>, cs: seq<seq<Value>>,
                             rows: seq<seq<Value>>)
    requires Lists(m, cols, cs) && Uniform(rows, |cols|)
    requires forall r, j :: 0 <= r < |rows| && 0 <= j < |cs| ==> j < |rows[r]| && r < |cs[j]| && rows[r][j] == cs[j][r]
    ensures ReadsRowByRow(Flatten(rows), m, cols, |rows|)
  {
    var w, flat := |cols|, Flatten(rows);
    forall r, j | 0 <= r < |rows| && 0 <= j < w
      ensures r * w + j < |flat| && cols[j] in m && r < |m[cols[j]]| && flat[r * w + j] == m[cols[j]][r]
    {
      FlattenReadsAt(m, cols, cs, rows, r, j);
    }
    FlattenLength(rows, w);
  }

  lemma FlattenReadsAt(m: map<string, seq<Value>>, cols: seq<string>, cs: seq<seq<Value>>,
                       rows: seq<seq<Value>>, r: nat, j: nat)
    requires Lists(m, cols, cs) && Uniform(rows, |cols|)
    requires r < |rows| && j < |cols|
    requires j < |rows[r]| && r < |cs[j]| && rows[r][j] == cs[j][r]
    ensures r * |cols| + j < |Flatten(rows)| && cols[j] in m && r < |m[cols[j]]|
    ensures Flatten(rows)[r * |cols| + j] == m[cols[j]][r]
  {
    assert cols[j] in m && cs[j] == m[cols[j]];
    FlattenAt(rows, |cols|, r, j);
  }

  /** An accepted insert in a named dialect binds every value, row after
      row, each row listing the columns in sorted order. */
  lemma InsertArgs(q: InsertQuery, d: Dialect)
    requires InsertAccepted(q) && d != ""
    ensures InsertToSQL(q, d).Success?
    ensures ReadsRowByRow(InsertToSQL(q, d).value.args, q.fieldsValues, Columns(q), RowCount(q))
  {
    InsertErrorIffRejected(q);
    AcceptedShape(q);
    ColumnValuesList(q);
    InsertStatementLayout(q.table, Columns(q), RowsOf(q), d);
    FlattenReadsRowByRow(q.fieldsValues, Columns(q), ColumnValues(q), RowsOf(q));
  }

  /** An accepted insert in a named dialect lists the sorted columns and one
      parenthesised group per row, group `r` holding the placeholders of
      positions `r * c + 1 .. r * c + c` for `c` columns, so that Postgres
      numbering continues across rows. */
  lemma InsertText(q: InsertQuery, d: Dialect)
    requires InsertAccepted(q) && d != ""
    ensures InsertToSQL(q, d).Success?
    ensures var cols, n := Columns(q), RowCount(q);
      InsertToSQL(q, d).value.text
      == "insert into " + q.table + "(" + Join(cols, ", ") + ") values "
         + Join(seq(n, k requires 0 <= k < n => Group(d, k, |cols|)), ", ")
  {
    InsertErrorIffRejected(q);
    AcceptedShape(q);
    InsertStatementLayout(q.table, Columns(q), RowsOf(q), d);
  }
}
