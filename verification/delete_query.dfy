/**
  The delete statement builder (`DeleteQuery`): a table and a mandatory
  filter, whose values are the only arguments.
 */
module DeleteQueries {
  import opened Outcomes
  import opened Values
  import opened Dialects
  import opened Filters
  import opened FilterShape
  import opened Statements

  datatype DeleteQuery = DeleteQuery(table: string, filter: Option<Filter>)

  /** `Delete()`: neither table nor filter yet. */
  function Delete(): (q: DeleteQuery)
    ensures q.table == "" && q.filter.None?
  {
    DeleteQuery("", None)
  }

  /** `DeleteQuery.validate`, check by check in source order. */
  function DeleteError(q: DeleteQuery): Option<string> {
    if q.table == "" then Some("table is required")
    else if q.filter.None? then Some("filter is required")
    else None
  }

  /** `DeleteQuery.ToSQLWithArgs`: the filter starts from no arguments. The
      dialect is not checked here; the filter, which validation makes
      mandatory, checks it. */
  function DeleteToSQL(q: DeleteQuery, d: Dialect): Result<Statement> {
    match DeleteError(q)
    case Some(msg) => Failure(Error(msg))
    case None => FilterStep(q.filter.value, d, "delete from " + q.table, [])
  }

  /** A delete succeeds exactly when it names a table and has a filter that
      validates, under a named dialect. A missing table is reported first,
      then a missing filter, then the filter's own error, then "dialect is
      required". On success the text is "delete from <table>" with the
      filter's layout after " where " when it is not empty, numbered from 1,
      and the arguments are exactly the filter's values, each named by its
      placeholder in order. */
  lemma DeleteOutcome(q: DeleteQuery, d: Dialect)
    ensures var r := DeleteToSQL(q, d);
      && (r.Success? <==> q.table != "" && q.filter.Some? && Validate(q.filter.value).None? && d != "")
      && (q.table == "" ==> r == Failure(Error("table is required")))
      && (q.table != "" && q.filter.None? ==> r == Failure(Error("filter is required")))
      && (q.table != "" && q.filter.Some? ==>
            var f := q.filter.value;
            && (Validate(f).Some? ==> r == Failure(Validate(f).value))
            && (Validate(f).None? && d == "" ==> r == Failure(Error("dialect is required")))
            && (Validate(f).None? && d != "" ==>
                  var ps := Shape(f, 0, true);
                  && r.value.text == WithWhere("delete from " + q.table, Render(ps, d))
                  && r.value.args == LeafArgs(f)
                  && NamesInOrder(Positions(ps), r.value.args, [], LeafArgs(f))))
  {
    if q.table != "" && q.filter.Some? {
      FilterStepOutcome(q.filter.value, d, "delete from " + q.table, []);
      assert [] + LeafArgs(q.filter.value) == LeafArgs(q.filter.value);
    }
  }
}
