/**
  A select-list entry (`Field`): a column, optionally qualified by its
  table, or an aliased sub-query. The sub-query's own compiler is a
  parameter `sub`, the uninterpreted `(text, args) | error` function the
  entry delegates to; nothing is assumed about it.
 */
module Fields {
  import opened Outcomes
  import opened Values
  import opened Dialects
  import opened Statements

  /** A nil `SelectQuery` pointer is `None`. */
  datatype Field<Q> = Field(table: string, column: string, subQuery: Option<Q>, alias: string)

  /** `NewField(column)` and `NewSelectQueryField(q)`; the other members
      start empty. */
  function NewField<Q>(column: string): (f: Field<Q>)
    ensures f.column == column && f.subQuery.None? && f.table == "" && f.alias == ""
  {
    Field("", column, None, "")
  }

  function NewSelectQueryField<Q>(q: Q): (f: Field<Q>)
    ensures f.subQuery == Some(q) && f.column == "" && f.table == "" && f.alias == ""
  {
    Field("", "", Some(q), "")
  }

  /** `Field.validate`, check by check in source order. */
  function FieldError<Q>(f: Field<Q>, d: Dialect): Option<Fault> {
    if d == "" then Some(Error("dialect is required"))
    else if f.column == "" && f.subQuery.None? then Some(Error("column is required"))
    else if f.column != "" && f.subQuery.Some? then Some(Error("conflict between field column and field select query"))
    else if f.alias == "" && f.subQuery.Some? then Some(Error("alias is required"))
    else None
  }

  /** What validation accepts: a named dialect and exactly one of column and
      sub-query, the sub-query carrying an alias. */
  predicate FieldAccepted<Q>(f: Field<Q>, d: Dialect) {
    && d != ""
    && (f.column != "" <==> f.subQuery.None?)
    && (f.subQuery.Some? ==> f.alias != "")
  }

  /** Validation passes exactly for accepted entries; every failure names
      the first broken rule, the dialect before the entry's own members and
      the missing case before the conflict. */
  lemma FieldErrorIffRejected<Q>(f: Field<Q>, d: Dialect)
    ensures FieldError(f, d).None? <==> FieldAccepted(f, d)
    ensures d == "" ==> FieldError(f, d) == Some(Error("dialect is required"))
    ensures d != "" && f.column == "" && f.subQuery.None? ==> FieldError(f, d) == Some(Error("column is required"))
  {
  }

  /** The column reference: `<table>.<column>`, or the column alone. */
  function ColumnReference<Q>(f: Field<Q>): string {
    if f.table != "" then f.table + "." + f.column else f.column
  }

  /** A qualified reference reads back as the table, a dot and the column. */
  lemma ColumnReferenceReadsBack<Q>(f: Field<Q>)
    requires f.table != ""
    ensures var r := ColumnReference(f);
      && |r| == |f.table| + 1 + |f.column|
      && r[..|f.table|] == f.table && r[|f.table|] == '.' && r[|f.table| + 1..] == f.column
  {
    var r := ColumnReference(f);
    assert r == f.table + "." + f.column;
    assert r[|f.table| + 1..] == f.column;
  }

  /** `Field.ToSQLWithArgs`. */
  function FieldToSQL<Q>(f: Field<Q>, d: Dialect, args: seq<Value>,
                         sub: (Q, Dialect, seq<Value>) -> Result<Statement>): Result<Statement>
  {
    match FieldError(f, d)
    case Some(e) => Failure(e)
    case None =>
      match f.subQuery
      case None => Success(Statement(ColumnReference(f), args))
      case Some(q) =>
        match sub(q, d, args)
        case Failure(e) => Failure(e)
        case Success(s) => Success(Statement(Parenthesize(s.text), s.args))
  }

  /** A column entry never fails once accepted and keeps the arguments; a
      sub-query entry fails exactly when the sub-query does, with its fault,
      and otherwise is the sub-query's text in parentheses with the
      sub-query's arguments, never qualified by the table. */
  lemma FieldOutcome<Q>(f: Field<Q>, d: Dialect, args: seq<Value>,
                        sub: (Q, Dialect, seq<Value>) -> Result<Statement>)
    ensures var r := FieldToSQL(f, d, args, sub);
      && (!FieldAccepted(f, d) ==> r == Failure(FieldError(f, d).value))
      && (FieldAccepted(f, d) && f.subQuery.None? ==>
            r == Success(Statement(ColumnReference(f), args)))
      && (FieldAccepted(f, d) && f.subQuery.Some? ==>
            var s := sub(f.subQuery.value, d, args);
            && (r.Success? <==> s.Success?)
            && (s.Failure? ==> r.fault == s.fault)
            && (s.Success? ==>
                  && r.value.args == s.value.args
                  && r.value.text[0] == '(' && r.value.text[|r.value.text| - 1] == ')'
                  && r.value.text[1..|r.value.text| - 1] == s.value.text))
  {
    FieldErrorIffRejected(f, d);
  }

  /** The table qualifies columns only: two sub-query entries that differ
      in nothing but the table render alike. */
  lemma SubQueryIgnoresTable<Q>(f: Field<Q>, table: string, d: Dialect, args: seq<Value>,
                                sub: (Q, Dialect, seq<Value>) -> Result<Statement>)
    requires f.subQuery.Some?
    ensures FieldToSQL(f.(table := table), d, args, sub) == FieldToSQL(f, d, args, sub)
  {
  }

  /** `Field.ToSQLWithArgsWithAlias`. */
  function FieldToSQLWithAlias<Q>(f: Field<Q>, d: Dialect, args: seq<Value>,
                                  sub: (Q, Dialect, seq<Value>) -> Result<Statement>): Result<Statement>
  {
    match FieldToSQL(f, d, args, sub)
    case Failure(e) => Failure(e)
    case Success(s) => Success(Statement(WithAlias(s.text, f.alias), s.args))
  }

  /** The aliased form fails exactly when the plain one does, binds the same
      arguments, and is the plain text followed by " as <alias>" when the
      alias is set and the plain text itself when it is not; an accepted
      sub-query entry always carries its alias. */
  lemma FieldAliasOutcome<Q>(f: Field<Q>, d: Dialect, args: seq<Value>,
                             sub: (Q, Dialect, seq<Value>) -> Result<Statement>)
    ensures var plain := FieldToSQL(f, d, args, sub);
      var r := FieldToSQLWithAlias(f, d, args, sub);
      && (r.Failure? <==> plain.Failure?)
      && (r.Failure? ==> r.fault == plain.fault)
      && (r.Success? ==>
            && r.value.args == plain.value.args
            && (f.alias == "" ==> r == plain)
            && (f.alias != "" ==> r.value.text == plain.value.text + " as " + f.alias)
            && (f.subQuery.Some? ==> f.alias != ""))
  {
    FieldErrorIffRejected(f, d);
  }
}
