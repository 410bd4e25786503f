/**
  What the statement builders share: the `(query, args)` pair they return
  on success, and the step in which select, update and delete compile
  their filter as the root of its tree, from the arguments gathered so
  far, and append its clause after " where ".
 */
module Statements {
  import opened Outcomes
  import opened Values
  import opened Dialects
  import opened Filters
  import opened FilterShape

  /** A successful `(string, []interface{}, nil)` result. */
  datatype Statement = Statement(text: string, args: seq<Value>)

  /** `query` followed by " where <clause>", or `query` alone when the
      clause is empty. */
  function WithWhere(query: string, clause: string): (r: string)
    ensures |query| <= |r| && r[..|query|] == query
    ensures r == query <==> clause == ""
  {
    if clause == "" then query else query + " where " + clause
  }

  /** `fmt.Sprintf("(%s)", text)`: a sub-query's text as a parenthesised
      operand; the inner text reads back between the parentheses. */
  function Parenthesize(text: string): (r: string)
    ensures |r| == |text| + 2 && r[0] == '(' && r[|r| - 1] == ')'
    ensures r[1..|r| - 1] == text
  {
    "(" + text + ")"
  }

  /** `fmt.Sprintf("%s as %s", text, alias)` when there is an alias, the
      text alone otherwise. */
  function WithAlias(text: string, alias: string): (r: string)
    ensures |text| <= |r| && r[..|text|] == text
    ensures alias == "" ==> r == text
    ensures alias != "" ==> r[|text|..] == " as " + alias
  {
    if alias == "" then text else text + " as " + alias
  }

  /** `Filter.ToSQLWithArgs(dialect, args)` inside a builder: an error is
      passed on as the builder's own, otherwise the clause is appended. */
  function FilterStep(f: Filter, d: Dialect, query: string, args: seq<Value>): Result<Statement>
  {
    var r := ToSQLWithArgs(f, d, args);
    match r.err
    case Some(e) => Failure(e)
    case None => Success(Statement(WithWhere(query, r.text), r.args))
  }

  /** The filter step fails with the filter's validation error if there is
      one, then with "dialect is required" for an empty dialect; otherwise
      it appends the rendered layout of the tree and the values it binds,
      the k-th placeholder naming the position of the k-th value. */
  lemma FilterStepOutcome(f: Filter, d: Dialect, query: string, args: seq<Value>)
    ensures var r := FilterStep(f, d, query, args);
      && (Validate(f).Some? ==> r == Failure(Validate(f).value))
      && (Validate(f).None? && d == "" ==> r == Failure(Error("dialect is required")))
      && (Validate(f).None? && d != "" ==>
            var ps := Shape(f, |args|, true);
            && r.Success?
            && r.value.text == WithWhere(query, Render(ps, d))
            && r.value.args == args + LeafArgs(f)
            && NamesInOrder(Positions(ps), r.value.args, args, LeafArgs(f)))
  {
    ToSQLWithArgsOutcome(f, d, args);
    if Validate(f).None? && d != "" {
      PositionalPlaceholders(f, d, args);
    }
  }
}
