/**
  The right-hand side of a comparison as a sub-query-capable node
  (`FilterValue`): a plain value bound as one argument, or a sub-query in
  parentheses compiled by the uninterpreted parameter `sub`.
 */
module FilterValueNodes {
  import opened Outcomes
  import opened Values
  import opened Dialects
  import opened Statements

  /** A nil `SelectQuery` pointer is `None`. */
  datatype FilterValue<Q> = FilterValue(value: Value, subQuery: Option<Q>)

  /** `FilterValue.validate`: only the dialect is checked. */
  function FilterValueError<Q>(v: FilterValue<Q>, d: Dialect): (r: Option<Fault>)
    ensures r.None? <==> d != ""
  {
    if d == "" then Some(Error("dialect is required")) else None
  }

  /** `FilterValue.ToSQLWithArgs`. */
  function FilterValueToSQL<Q>(v: FilterValue<Q>, d: Dialect, args: seq<Value>,
                               sub: (Q, Dialect, seq<Value>) -> Result<Statement>): Result<Statement>
  {
    match FilterValueError(v, d)
    case Some(e) => Failure(e)
    case None =>
      match v.subQuery
      case None => Success(Statement("", args + [v.value]))
      case Some(q) =>
        match sub(q, d, args)
        case Failure(e) => Failure(e)
        case Success(s) => Success(Statement(Parenthesize(s.text), s.args))
  }

  /** An empty dialect is the only error of the node itself. Any value, nil
      included, is bound as exactly one new last argument with no text; a
      sub-query fails exactly when it does and otherwise gives its text in
      parentheses and its arguments. */
  lemma FilterValueOutcome<Q>(v: FilterValue<Q>, d: Dialect, args: seq<Value>,
                              sub: (Q, Dialect, seq<Value>) -> Result<Statement>)
    ensures var r := FilterValueToSQL(v, d, args, sub);
      && (d == "" ==> r == Failure(Error("dialect is required")))
      && (d != "" && v.subQuery.None? ==>
            && r.Success? && r.value.text == ""
            && |r.value.args| == |args| + 1
            && r.value.args[..|args|] == args && r.value.args[|args|] == v.value)
      && (d != "" && v.subQuery.Some? ==>
            var s := sub(v.subQuery.value, d, args);
            && (r.Success? <==> s.Success?)
            && (s.Failure? ==> r.fault == s.fault)
            && (s.Success? ==>
                  && r.value.args == s.value.args
                  && r.value.text == "(" + s.value.text + ")"
                  && r.value.text[0] == '(' && r.value.text[|r.value.text| - 1] == ')'
                  && r.value.text[1..|r.value.text| - 1] == s.value.text))
  {
    if d != "" && v.subQuery.None? {
      var all := args + [v.value];
      assert all[..|args|] == args;
    }
  }

  /** With a sub-query the plain value is ignored. */
  lemma SubQueryIgnoresValue<Q>(v: FilterValue<Q>, w: Value, d: Dialect, args: seq<Value>,
                                sub: (Q, Dialect, seq<Value>) -> Result<Statement>)
    requires v.subQuery.Some?
    ensures FilterValueToSQL(v.(value := w), d, args, sub) == FilterValueToSQL(v, d, args, sub)
  {
  }
}
