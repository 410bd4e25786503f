/**
  The table of a select (`Table`): a name, or an aliased sub-query. As for
  fields, the sub-query's compiler is the uninterpreted parameter `sub`.
 */
module Tables {
  import opened Outcomes
  import opened Values
  import opened Dialects
  import opened Statements

  /** A nil `SelectQuery` pointer is `None`. */
  datatype Table<Q> = Table(name: string, subQuery: Option<Q>, alias: string)

  /** `NewTable(name)` and `NewSelectQueryTable(q)`. */
  function NewTable<Q>(name: string): (t: Table<Q>)
    ensures t.name == name && t.subQuery.None? && t.alias == ""
  {
    Table(name, None, "")
  }

  function NewSelectQueryTable<Q>(q: Q): (t: Table<Q>)
    ensures t.subQuery == Some(q) && t.name == "" && t.alias == ""
  {
    Table("", Some(q), "")
  }

  /** `Table.validate`, check by check in source order: unlike a field, the
      conflict is checked before the missing case. */
  function TableError<Q>(t: Table<Q>, d: Dialect): Option<Fault> {
    if d == "" then Some(Error("dialect is required"))
    else if t.name != "" && t.subQuery.Some? then Some(Error("conflict between table name and table select query"))
    else if t.name == "" && t.subQuery.None? then Some(Error("name is required"))
    else if t.alias == "" && t.subQuery.Some? then Some(Error("alias is required"))
    else None
  }

  /** What validation accepts: a named dialect and exactly one of name and
      sub-query, the sub-query carrying an alias. */
  predicate TableAccepted<Q>(t: Table<Q>, d: Dialect) {
    && d != ""
    && (t.name != "" <==> t.subQuery.None?)
    && (t.subQuery.Some? ==> t.alias != "")
  }

  lemma TableErrorIffRejected<Q>(t: Table<Q>, d: Dialect)
    ensures TableError(t, d).None? <==> TableAccepted(t, d)
    ensures d == "" ==> TableError(t, d) == Some(Error("dialect is required"))
    ensures d != "" && t.name != "" && t.subQuery.Some? ==>
      TableError(t, d) == Some(Error("conflict between table name and table select query"))
  {
  }

  /** `Table.ToSQLWithArgs`. */
  function TableToSQL<Q>(t: Table<Q>, d: Dialect, args: seq<Value>,
                         sub: (Q, Dialect, seq<Value>) -> Result<Statement>): Result<Statement>
  {
    match TableError(t, d)
    case Some(e) => Failure(e)
    case None =>
      match t.subQuery
      case None => Success(Statement(t.name, args))
      case Some(q) =>
        match sub(q, d, args)
        case Failure(e) => Failure(e)
        case Success(s) => Success(Statement(Parenthesize(s.text), s.args))
  }

  /** A named table renders as its name and keeps the arguments; a
      sub-query table fails exactly when the sub-query does, with its fault,
      and is otherwise the sub-query's text in parentheses with its
      arguments. */
  lemma TableOutcome<Q>(t: Table<Q>, d: Dialect, args: seq<Value>,
                        sub: (Q, Dialect, seq<Value>) -> Result<Statement>)
    ensures var r := TableToSQL(t, d, args, sub);
      && (!TableAccepted(t, d) ==> r == Failure(TableError(t, d).value))
      && (TableAccepted(t, d) && t.subQuery.None? ==> r == Success(Statement(t.name, args)))
      && (TableAccepted(t, d) && t.subQuery.Some? ==>
            var s := sub(t.subQuery.value, d, args);
            && (r.Success? <==> s.Success?)
            && (s.Failure? ==> r.fault == s.fault)
            && (s.Success? ==>
                  && r.value.args == s.value.args
                  && r.value.text[0] == '(' && r.value.text[|r.value.text| - 1] == ')'
                  && r.value.text[1..|r.value.text| - 1] == s.value.text))
  {
    TableErrorIffRejected(t, d);
  }

  /** `Table.ToSQLWithArgsWithAlias`. */
  function TableToSQLWithAlias<Q>(t: Table<Q>, d: Dialect, args: seq<Value>,
                                  sub: (Q, Dialect, seq<Value>) -> Result<Statement>): Result<Statement>
  {
    match TableToSQL(t, d, args, sub)
    case Failure(e) => Failure(e)
    case Success(s) => Success(Statement(WithAlias(s.text, t.alias), s.args))
  }

  /** The aliased form fails exactly when the plain one does, binds the same
      arguments, and appends " as <alias>" exactly when the alias is set. */
  lemma TableAliasOutcome<Q>(t: Table<Q>, d: Dialect, args: seq<Value>,
                             sub: (Q, Dialect, seq<Value>) -> Result<Statement>)
    ensures var plain := TableToSQL(t, d, args, sub);
      var r := TableToSQLWithAlias(t, d, args, sub);
      && (r.Failure? <==> plain.Failure?)
      && (r.Failure? ==> r.fault == plain.fault)
      && (r.Success? ==>
            && r.value.args == plain.value.args
            && (t.alias == "" ==> r == plain)
            && (t.alias != "" ==> r.value.text == plain.value.text + " as " + t.alias)
            && (t.subQuery.Some? ==> t.alias != ""))
  {
    TableErrorIffRejected(t, d);
  }
}
