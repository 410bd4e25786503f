/**
  The select statement builder (`SelectQuery`): column list, table, an
  optional filter, optional "order by" terms and a mandatory bound limit.
 */
module SelectQueries {
  import opened Outcomes
  import opened Text
  import opened Values
  import opened Dialects
  import opened Filters
  import opened FilterShape
  import opened Statements
  import opened Sorts

  /** The record; `maxTake` is the unexported bound that only `Select()`
      sets. A nil `Sorts` element is `None`. */
  datatype SelectQuery = SelectQuery(
    fields: seq<string>,
    table: string,
    filter: Option<Filter>,
    sorts: seq<Option<Sort>>,
    maxTake: nat,
    take: nat)

  const DefaultMaxTake: nat := 100

  /** `Select(fields...)`: the fields, and the limit bound 100. A struct
      literal of the same record gets bound 0 instead. */
  function Select(fields: seq<string>): (q: SelectQuery)
    ensures q.fields == fields && q.maxTake == 100
    ensures q.table == "" && q.filter.None? && q.sorts == [] && q.take == 0
  {
    SelectQuery(fields, "", None, [], DefaultMaxTake, 0)
  }

  /** `SelectQuery.validate`, check by check in source order. */
  function SelectError(q: SelectQuery): Option<string> {
    if |q.fields| == 0 then Some("fields is required")
    else if exists i :: 0 <= i < |q.fields| && q.fields[i] == "" then Some("field is required")
    else if q.table == "" then Some("table is required")
    else if q.take == 0 then Some("take is required")
    else if q.take > q.maxTake then Some("maximum take is " + Decimal(q.maxTake))
    else None
  }

  /** Independent statement of what validation accepts. */
  predicate WellFormed(q: SelectQuery) {
    && q.fields != []
    && "" !in q.fields
    && q.table != ""
    && 0 < q.take <= q.maxTake
  }

  lemma SelectErrorIffMalformed(q: SelectQuery)
    ensures SelectError(q).None? <==> WellFormed(q)
  {
    if "" in q.fields {
      var i :| 0 <= i < |q.fields| && q.fields[i] == "";
    }
  }

  /** The bound a struct literal gets (0) lets no limit through: zero is
      missing, anything else is above the maximum. */
  lemma LiteralRejectsEveryTake(q: SelectQuery)
    requires q.maxTake == 0 && q.fields != [] && "" !in q.fields && q.table != ""
    ensures q.take == 0 ==> SelectError(q) == Some("take is required")
    ensures q.take > 0 ==> SelectError(q) == Some("maximum take is 0")
  {
    assert forall i :: 0 <= i < |q.fields| ==> q.fields[i] != "";
    assert DigitChar(0) == '0';
    assert Decimal(0) == "0";
    if q.take > 0 {
      assert SelectError(q) == Some("maximum take is " + Decimal(q.maxTake));
      assert "maximum take is " + "0" == "maximum take is 0";
    }
  }

  // ---------------------------------------------------------------------
  // "order by"

  /** The order-by loop: sorts `i..` rendered after `acc`, nil sorts skipped,
      the first failing sort ending the loop with its error. */
  function OrderTerms(sorts: seq<Option<Sort>>, i: nat, acc: seq<string>): Result<seq<string>>
    requires i <= |sorts|
    decreases |sorts| - i
  {
    if i == |sorts| then Success(acc)
    else match sorts[i]
      case None => OrderTerms(sorts, i + 1, acc)
      case Some(s) =>
        match SortToSQL(s)
        case Failure(e) => Failure(e)
        case Success((text, _)) => OrderTerms(sorts, i + 1, acc + [text])
  }

  /** Reference: every sort present names a field. */
  predicate SortsValid(sorts: seq<Option<Sort>>) {
    forall i :: 0 <= i < |sorts| && sorts[i].Some? ==> sorts[i].value.field != ""
  }

  /** Reference: the texts of the sorts present, in order. */
  function Rendered(sorts: seq<Option<Sort>>): seq<string> {
    if |sorts| == 0 then []
    else match sorts[0]
      case None => Rendered(sorts[1..])
      case Some(s) => [s.field + " " + EffectiveDirection(s)] + Rendered(sorts[1..])
  }

  /** The loop fails with "field is required" exactly when some present sort
      has no field, and otherwise renders the present sorts in order. */
  lemma {:induction false} OrderTermsMatchRendered(sorts: seq<Option<Sort>>, i: nat, acc: seq<string>)
    requires i <= |sorts|
    ensures var r := OrderTerms(sorts, i, acc);
      && (r.Success? <==> SortsValid(sorts[i..]))
      && (r.Success? ==> r.value == acc + Rendered(sorts[i..]))
      && (r.Failure? ==> r.fault == Error("field is required"))
    decreases |sorts| - i
  {
    if i == |sorts| {
      assert sorts[i..] == [];
    } else {
      var rest := sorts[i + 1..];
      assert sorts[i..] == [sorts[i]] + rest;
      SortsValidCons(sorts[i], rest);
      if sorts[i].None? {
        OrderTermsMatchRendered(sorts, i + 1, acc);
      } else if sorts[i].value.field != "" {
        var t := SortToSQL(sorts[i].value).value.0;
        OrderTermsMatchRendered(sorts, i + 1, acc + [t]);
        assert acc + [t] + Rendered(rest) == acc + ([t] + Rendered(rest));
      }
    }
  }

  lemma SortsValidCons(s: Option<Sort>, rest: seq<Option<Sort>>)
    ensures SortsValid([s] + rest) <==> (s.None? || s.value.field != "") && SortsValid(rest)
    ensures Rendered([s] + rest)
         == (if s.Some? then [s.value.field + " " + EffectiveDirection(s.value)] else []) + Rendered(rest)
  {
    var all := [s] + rest;
    assert all[1..] == rest;
    if SortsValid(rest) && (s.None? || s.value.field != "") {
      forall j | 0 <= j < |all| && all[j].Some?
        ensures all[j].value.field != ""
      {
        if j > 0 {
          assert all[j] == rest[j - 1];
        }
      }
    }
    if s.Some? && s.value.field == "" {
      assert all[0] == s;
    }
    if !SortsValid(rest) {
      var j :| 0 <= j < |rest| && rest[j].Some? && rest[j].value.field == "";
      assert all[j + 1] == rest[j];
    }
  }

  /** " order by <terms>" when there are terms, nothing otherwise. */
  function OrderByClause(terms: seq<string>): string {
    if |terms| > 0 then " order by " + Join(terms, ", ") else ""
  }

  // ---------------------------------------------------------------------
  // The statement

  function Head(q: SelectQuery): string {
    "select " + Join(q.fields, ", ") + " from " + q.table
  }

  /** The statement up to (not including) the limit: head, where clause and
      the arguments the filter bound. */
  function SelectBody(q: SelectQuery, d: Dialect): Result<Statement> {
    match q.filter
    case None => Success(Statement(Head(q), []))
    case Some(f) => FilterStep(f, d, Head(q), [])
  }

  /** The order-by loop, which runs only when the record has sorts. */
  function SortTerms(q: SelectQuery): Result<seq<string>> {
    if |q.sorts| > 0 then OrderTerms(q.sorts, 0, []) else Success([])
  }

  /** `SelectQuery.ToSQLWithArgs`. The dialect is not checked here: it is
      only checked by the filter, so a select without a filter in an unknown
      or empty dialect renders an empty limit placeholder. */
  function SelectToSQL(q: SelectQuery, d: Dialect): (r: Result<Statement>)
    ensures SelectError(q).Some? ==> r == Failure(Error(SelectError(q).value))
  {
    match SelectError(q)
    case Some(msg) => Failure(Error(msg))
    case None =>
      match SelectBody(q, d)
      case Failure(e) => Failure(e)
      case Success(body) =>
        match SortTerms(q)
        case Failure(e) => Failure(e)
        case Success(ts) =>
          var args := body.args + [UintValue(Bits64, q.take)];
          Success(Statement(body.text + OrderByClause(ts) + " limit " + Placeholder(d, |args|, |args|), args))
  }

  /** Reference: the filter, if any, validates and the dialect is named. */
  predicate FilterAccepted(q: SelectQuery, d: Dialect) {
    q.filter.Some? ==> Validate(q.filter.value).None? && d != ""
  }

  /** The values the filter binds, if there is one. */
  function FilterValues(q: SelectQuery): seq<Value> {
    if q.filter.Some? then LeafArgs(q.filter.value) else []
  }

  /** The order-by terms are the present sorts rendered, and fail exactly
      when one of them has no field. */
  lemma SortTermsOutcome(q: SelectQuery)
    ensures var r := SortTerms(q);
      && (r.Success? <==> SortsValid(q.sorts))
      && (r.Success? ==> r.value == Rendered(q.sorts))
  {
    OrderTermsMatchRendered(q.sorts, 0, []);
    assert q.sorts[0..] == q.sorts;
    if |q.sorts| == 0 {
      assert Rendered(q.sorts) == [];
    }
  }

  /** Head and where clause: this part fails exactly when the filter (if
      any) does not validate or the dialect is empty, and binds the
      filter's values. */
  lemma SelectBodyOutcome(q: SelectQuery, d: Dialect)
    ensures var r := SelectBody(q, d);
      && (r.Success? <==> FilterAccepted(q, d))
      && (r.Success? ==>
            var clause := if q.filter.Some? then Render(Shape(q.filter.value, 0, true), d) else "";
            r.value == Statement(WithWhere(Head(q), clause), FilterValues(q)))
  {
    if q.filter.Some? {
      FilterStepOutcome(q.filter.value, d, Head(q), []);
    }
  }

  /** A select succeeds exactly when the record is well formed, its filter
      (if any) validates under a named dialect, and every sort present names
      a field. Then the text is the head, the filter's rendered layout after
      " where " when it is not empty, the present sorts after " order by "
      when there are any, and " limit " with the placeholder of the last
      argument; the arguments are the filter's values followed by the
      limit. */
  lemma SelectOutcome(q: SelectQuery, d: Dialect)
    ensures var r := SelectToSQL(q, d);
      && (r.Success? <==> WellFormed(q) && FilterAccepted(q, d) && SortsValid(q.sorts))
      && (r.Success? ==>
            var clause := if q.filter.Some? then Render(Shape(q.filter.value, 0, true), d) else "";
            && r.value.args == FilterValues(q) + [UintValue(Bits64, q.take)]
            && r.value.text == WithWhere(Head(q), clause) + OrderByClause(Rendered(q.sorts))
                               + " limit " + Placeholder(d, |r.value.args|, |r.value.args|))
  {
    SelectErrorIffMalformed(q);
    SortTermsOutcome(q);
    SelectBodyOutcome(q, d);
  }

  /** The limit is always the last argument and its placeholder closes the
      text; in Postgres its number is the length of the argument list, so it
      follows the filter's numbers. */
  lemma LimitIsLast(q: SelectQuery, d: Dialect)
    requires SelectToSQL(q, d).Success?
    ensures var s := SelectToSQL(q, d).value;
      && |s.args| == |FilterValues(q)| + 1
      && s.args[|s.args| - 1] == UintValue(Bits64, q.take)
      && (d == Postgres ==>
            var tail := " limit $" + Decimal(|s.args|);
            |tail| <= |s.text| && s.text[|s.text| - |tail|..] == tail)
  {
    SelectOutcome(q, d);
    var s := SelectToSQL(q, d).value;
    if d == Postgres {
      PlaceholderSingle(d, |s.args|);
      var pre := WithWhere(Head(q), if q.filter.Some? then Render(Shape(q.filter.value, 0, true), d) else "")
                 + OrderByClause(Rendered(q.sorts));
      LimitTail(pre, Placeholder(d, |s.args|, |s.args|), |s.args|, s.text);
    }
  }

  lemma LimitTail(pre: string, ph: string, n: nat, text: string)
    requires ph == "$" + Decimal(n) && text == pre + " limit " + ph
    ensures var tail := " limit $" + Decimal(n);
      |tail| <= |text| && text[|text| - |tail|..] == tail
  {
    var tail := " limit $" + Decimal(n);
    assert text == pre + tail;
  }

  /** Without a filter nothing checks the dialect: an unknown or empty one
      yields a statement ending in " limit " with no placeholder. */
  lemma UncheckedDialect(q: SelectQuery, d: Dialect)
    requires WellFormed(q) && q.filter.None? && SortsValid(q.sorts) && !Known(d)
    ensures SelectToSQL(q, d).Success?
    ensures var text := SelectToSQL(q, d).value.text;
      |text| >= 7 && text[|text| - 7..] == " limit "
  {
    SelectOutcome(q, d);
    PlaceholderUnknownDialect(d, 1, 1);
  }
}
