/**
  The update statement builder (`UpdateQuery`): a table, one value per
  field, and a mandatory filter. The record keeps the fields in a Go map,
  which both validation and rendering walk in an order the language leaves
  unspecified and may change between the two walks; the model takes each
  walk's order as a parameter, any enumeration of the keys being allowed.
 */
module UpdateQueries {
  import opened Outcomes
  import opened Text
  import opened Values
  import opened Dialects
  import opened Filters
  import opened FilterShape
  import opened Statements

  datatype UpdateQuery = UpdateQuery(table: string, fieldsValue: map<string, Value>, filter: Option<Filter>)

  /** `Update(table)`: no fields and no filter yet. */
  function Update(table: string): (q: UpdateQuery)
    ensures q.table == table && |q.fieldsValue| == 0 && q.filter.None?
  {
    UpdateQuery(table, map[], None)
  }

  /** `UpdateQuery.Set(field, value)`: the field now maps to the value, a
      later call for the same field replacing the earlier one; no other
      field changes. */
  function Set(q: UpdateQuery, field: string, value: Value): (r: UpdateQuery)
    ensures r.table == q.table && r.filter == q.filter
    ensures r.fieldsValue.Keys == q.fieldsValue.Keys + {field}
    ensures field in r.fieldsValue && r.fieldsValue[field] == value
    ensures forall c :: c in q.fieldsValue && c != field ==> r.fieldsValue[c] == q.fieldsValue[c]
  {
    q.(fieldsValue := q.fieldsValue[field := value])
  }

  /** One walk over the map: every key exactly once. */
  predicate IsOrder(keys: set<string>, order: seq<string>) {
    && (forall i :: 0 <= i < |order| ==> order[i] in keys)
    && (forall k :: k in keys ==> k in order)
    && (forall i, j :: 0 <= i < j < |order| ==> order[i] != order[j])
  }

  /** A field entry the validation loop lets through. */
  predicate EntryOk(m: map<string, Value>, field: string)
    requires field in m
  {
    field != "" && Bindable(m[field])
  }

  /** The message the validation loop stops with at a rejected entry: an
      empty name is reported before the value is looked at. */
  function EntryMessage(m: map<string, Value>, field: string): string
    requires field in m
  {
    if field == "" then "field is required" else UnsupportedValueType(KindOf(m[field]))
  }

  /** The validation loop over `order[i..]`. */
  function EntriesError(m: map<string, Value>, order: seq<string>, i: nat): Option<string>
    requires i <= |order| && forall j :: 0 <= j < |order| ==> order[j] in m
    decreases |order| - i
  {
    if i == |order| then None
    else if !EntryOk(m, order[i]) then Some(EntryMessage(m, order[i]))
    else EntriesError(m, order, i + 1)
  }

  /** The loop passes exactly when every visited entry passes, and
      otherwise reports the first rejected entry of the walk. */
  lemma {:induction false} EntriesErrorFirst(m: map<string, Value>, order: seq<string>, i: nat)
    requires i <= |order| && forall j :: 0 <= j < |order| ==> order[j] in m
    ensures EntriesError(m, order, i).None? <==> forall j :: i <= j < |order| ==> EntryOk(m, order[j])
    ensures EntriesError(m, order, i).Some? ==>
      exists j :: && i <= j < |order| && !EntryOk(m, order[j])
                  && (forall l :: i <= l < j ==> EntryOk(m, order[l]))
                  && EntriesError(m, order, i).value == EntryMessage(m, order[j])
    decreases |order| - i
  {
    if i < |order| {
      EntriesErrorFirst(m, order, i + 1);
      if EntryOk(m, order[i]) && EntriesError(m, order, i).Some? {
        var j :| && i + 1 <= j < |order| && !EntryOk(m, order[j])
                 && (forall l :: i + 1 <= l < j ==> EntryOk(m, order[l]))
                 && EntriesError(m, order, i + 1).value == EntryMessage(m, order[j]);
        assert forall l :: i <= l < j ==> EntryOk(m, order[l]);
      }
    }
  }

  /** `UpdateQuery.validate` for one walk of the map, check by check in
      source order. */
  function UpdateError(q: UpdateQuery, check: seq<string>): Option<string>
    requires IsOrder(q.fieldsValue.Keys, check)
  {
    if q.table == "" then Some("table is required")
    else if |q.fieldsValue| == 0 then Some("fields is required")
    else match EntriesError(q.fieldsValue, check, 0)
      case Some(msg) => Some(msg)
      case None => if q.filter.None? then Some("filter is required") else None
  }

  /** What validation accepts, stated on the map alone. */
  predicate UpdateAccepted(q: UpdateQuery) {
    && q.table != ""
    && |q.fieldsValue| > 0
    && "" !in q.fieldsValue
    && (forall c :: c in q.fieldsValue ==> Bindable(q.fieldsValue[c]))
    && q.filter.Some?
  }

  /** Validation passes exactly when the record is accepted, whichever walk
      of the map it makes; only the message of a rejection can depend on the
      walk. */
  lemma UpdateErrorIffRejected(q: UpdateQuery, check: seq<string>)
    requires IsOrder(q.fieldsValue.Keys, check)
    ensures UpdateError(q, check).None? <==> UpdateAccepted(q)
  {
    var m := q.fieldsValue;
    EntriesErrorFirst(m, check, 0);
    if EntriesError(m, check, 0).None? {
      forall c | c in m
        ensures c != "" && Bindable(m[c])
      {
        var j :| 0 <= j < |check| && check[j] == c;
        assert EntryOk(m, check[j]);
      }
    }
  }

  /** Two walks agree on whether validation passes; they report the same
      error too unless the map holds a rejected entry, where each walk names
      the first one it meets. */
  lemma VerdictIndependentOfWalk(q: UpdateQuery, check: seq<string>, check': seq<string>)
    requires IsOrder(q.fieldsValue.Keys, check) && IsOrder(q.fieldsValue.Keys, check')
    ensures UpdateError(q, check).None? <==> UpdateError(q, check').None?
    ensures (forall c :: c in q.fieldsValue ==> EntryOk(q.fieldsValue, c))
            ==> UpdateError(q, check) == UpdateError(q, check')
  {
    UpdateErrorIffRejected(q, check);
    UpdateErrorIffRejected(q, check');
    var m := q.fieldsValue;
    if forall c :: c in m ==> EntryOk(m, c) {
      EntriesErrorFirst(m, check, 0);
      EntriesErrorFirst(m, check', 0);
    }
  }

  // ---------------------------------------------------------------------
  // The statement

  /** The rendering loop over `order[i..]`: each field's value is bound,
      then the field is set to the placeholder `slot` gives for the
      argument count so far. */
  function SetClauses(m: map<string, Value>, order: seq<string>, slot: nat -> string, i: nat,
                      args: seq<Value>, clauses: seq<string>): (seq<Value>, seq<string>)
    requires i <= |order| && forall j :: 0 <= j < |order| ==> order[j] in m
    decreases |order| - i
  {
    if i == |order| then (args, clauses)
    else
      var args' := args + [m[order[i]]];
      SetClauses(m, order, slot, i + 1, args', clauses + [order[i] + " = " + slot(|args'|)])
  }

  /** The placeholder of one bound value in dialect `d`. */
  function Slot(d: Dialect): nat -> string {
    (n: nat) => Placeholder(d, n, n)
  }

  /** The values of the walk, in its order. */
  function ValuesInOrder(m: map<string, Value>, order: seq<string>): (vs: seq<Value>)
    requires forall j :: 0 <= j < |order| ==> order[j] in m
    ensures |vs| == |order|
    ensures forall j :: 0 <= j < |order| ==> vs[j] == m[order[j]]
  {
    seq(|order|, j requires 0 <= j < |order| => m[order[j]])
  }

  /** Clause `k` of the set list: the field equated to the placeholder of
      position `k + 1`. */
  function SetClause(d: Dialect, field: string, k: nat): string {
    field + " = " + Placeholder(d, k + 1, k + 1)
  }

  /** The text before the where clause, for the rendering walk `emit`. */
  function SetPart(q: UpdateQuery, d: Dialect, emit: seq<string>): string
    requires forall j :: 0 <= j < |emit| ==> emit[j] in q.fieldsValue
  {
    "update " + q.table + " set " + Join(seq(|emit|, k requires 0 <= k < |emit| => SetClause(d, emit[k], k)), ", ")
  }

  /** `UpdateQuery.ToSQLWithArgs`, validating along the walk `check` and
      rendering along the walk `emit`. The dialect is not checked here; the
      filter, which validation makes mandatory, checks it. */
  function UpdateToSQL(q: UpdateQuery, d: Dialect, check: seq<string>, emit: seq<string>): Result<Statement>
    requires IsOrder(q.fieldsValue.Keys, check) && IsOrder(q.fieldsValue.Keys, emit)
  {
    match UpdateError(q, check)
    case Some(msg) => Failure(Error(msg))
    case None =>
      var (args, clauses) := SetClauses(q.fieldsValue, emit, Slot(d), 0, [], []);
      FilterStep(q.filter.value, d, "update " + q.table + " set " + Join(clauses, ", "), args)
  }

  /** The rendering loop appends the walk's values in order and, for each,
      the clause naming the position that value took. */
  lemma {:induction false} SetClausesLayout(m: map<string, Value>, order: seq<string>, slot: nat -> string,
                                            i: nat, args: seq<Value>, clauses: seq<string>)
    requires i <= |order| && forall j :: 0 <= j < |order| ==> order[j] in m
    ensures var (a, c) := SetClauses(m, order, slot, i, args, clauses);
      && |a| == |args| + |order| - i && a[..|args|] == args
      && (forall j :: i <= j < |order| ==> a[|args| + j - i] == m[order[j]])
      && |c| == |clauses| + |order| - i && c[..|clauses|] == clauses
      && (forall j :: i <= j < |order| ==>
            c[|clauses| + j - i] == order[j] + " = " + slot(|args| + j - i + 1))
    decreases |order| - i
  {
    if i < |order| {
      var args' := args + [m[order[i]]];
      var clauses' := clauses + [order[i] + " = " + slot(|args'|)];
      SetClausesLayout(m, order, slot, i + 1, args', clauses');
      var (a, c) := SetClauses(m, order, slot, i + 1, args', clauses');
      assert a[..|args'|][..|args|] == a[..|args|];
      assert c[..|clauses'|][..|clauses|] == c[..|clauses|];
      assert a[|args|] == a[..|args'|][|args|];
      assert c[|clauses|] == c[..|clauses'|][|clauses|];
    }
  }

  /** From an empty start the loop yields exactly the walk's values and its
      set clauses. */
  lemma SetClausesFromStart(m: map<string, Value>, order: seq<string>, d: Dialect)
    requires forall j :: 0 <= j < |order| ==> order[j] in m
    ensures var (a, c) := SetClauses(m, order, Slot(d), 0, [], []);
      && a == ValuesInOrder(m, order)
      && c == seq(|order|, k requires 0 <= k < |order| => SetClause(d, order[k], k))
  {
    SetValuesFromStart(m, order, d);
    SetTextsFromStart(m, order, d);
  }

  lemma SetValuesFromStart(m: map<string, Value>, order: seq<string>, d: Dialect)
    requires forall j :: 0 <= j < |order| ==> order[j] in m
    ensures SetClauses(m, order, Slot(d), 0, [], []).0 == ValuesInOrder(m, order)
  {
    SetClausesLayout(m, order, Slot(d), 0, [], []);
  }

  lemma SetTextsFromStart(m: map<string, Value>, order: seq<string>, d: Dialect)
    requires forall j :: 0 <= j < |order| ==> order[j] in m
    ensures SetClauses(m, order, Slot(d), 0, [], []).1
         == seq(|order|, k requires 0 <= k < |order| => SetClause(d, order[k], k))
  {
    var c := SetClauses(m, order, Slot(d), 0, [], []).1;
    ClausesLength(m, order, Slot(d));
    forall k | 0 <= k < |order|
      ensures c[k] == SetClause(d, order[k], k)
    {
      ClauseAt(m, order, Slot(d), k);
      SlotAt(d, k + 1);
    }
  }

  lemma ClausesLength(m: map<string, Value>, order: seq<string>, slot: nat -> string)
    requires forall j :: 0 <= j < |order| ==> order[j] in m
    ensures |SetClauses(m, order, slot, 0, [], []).1| == |order|
  {
    SetClausesLayout(m, order, slot, 0, [], []);
  }

  lemma ClauseAt(m: map<string, Value>, order: seq<string>, slot: nat -> string, k: nat)
    requires forall j :: 0 <= j < |order| ==> order[j] in m
    requires k < |order|
    ensures |SetClauses(m, order, slot, 0, [], []).1| == |order|
    ensures SetClauses(m, order, slot, 0, [], []).1[k] == order[k] + " = " + slot(k + 1)
  {
    SetClausesLayout(m, order, slot, 0, [], []);
  }

  lemma SlotAt(d: Dialect, n: nat)
    ensures Slot(d)(n) == Placeholder(d, n, n)
  {
  }

  /** An update succeeds exactly when the record is accepted, its filter
      validates and the dialect is named; a rejected record reports its
      validation error (for the walk `check`), then the filter's own error
      comes, then "dialect is required". On success the text is the set
      list of the walk `emit`, then the filter's layout after " where "
      when it is not empty, numbered on from the set values; the arguments
      are the set values in walk order followed by the filter's values. */
  lemma UpdateOutcome(q: UpdateQuery, d: Dialect, check: seq<string>, emit: seq<string>)
    requires IsOrder(q.fieldsValue.Keys, check) && IsOrder(q.fieldsValue.Keys, emit)
    ensures var r := UpdateToSQL(q, d, check, emit);
      && (!UpdateAccepted(q) ==> UpdateError(q, check).Some? && r == Failure(Error(UpdateError(q, check).value)))
      && (UpdateAccepted(q) ==>
            var f := q.filter.value;
            && (Validate(f).Some? ==> r == Failure(Validate(f).value))
            && (Validate(f).None? && d == "" ==> r == Failure(Error("dialect is required")))
            && (Validate(f).None? && d != "" ==>
                  var vs := ValuesInOrder(q.fieldsValue, emit);
                  var ps := Shape(f, |vs|, true);
                  && r.Success?
                  && r.value.text == WithWhere(SetPart(q, d, emit), Render(ps, d))
                  && r.value.args == vs + LeafArgs(f)
                  && NamesInOrder(Positions(ps), r.value.args, vs, LeafArgs(f))))
  {
    UpdateErrorIffRejected(q, check);
    if UpdateAccepted(q) {
      var m := q.fieldsValue;
      SetClausesFromStart(m, emit, d);
      var (args, clauses) := SetClauses(m, emit, Slot(d), 0, [], []);
      assert "update " + q.table + " set " + Join(clauses, ", ") == SetPart(q, d, emit);
      FilterStepOutcome(q.filter.value, d, SetPart(q, d, emit), args);
    }
  }

  /** An update succeeds exactly when the record is accepted, the filter
      validates and the dialect is named. */
  lemma UpdateSucceedsIff(q: UpdateQuery, d: Dialect, check: seq<string>, emit: seq<string>)
    requires IsOrder(q.fieldsValue.Keys, check) && IsOrder(q.fieldsValue.Keys, emit)
    ensures UpdateToSQL(q, d, check, emit).Success?
        <==> UpdateAccepted(q) && Validate(q.filter.value).None? && d != ""
  {
    UpdateOutcome(q, d, check, emit);
  }

  /** In Postgres the set clause of the `k`-th field of the walk reads
      "<field> = $<k + 1>", and in MySQL "<field> = ?". */
  lemma SetClauseNumbering(d: Dialect, field: string, k: nat)
    requires Known(d)
    ensures d == Postgres ==> SetClause(d, field, k) == field + " = $" + Decimal(k + 1)
    ensures d == MySQL ==> SetClause(d, field, k) == field + " = ?"
  {
    PlaceholderSingle(d, k + 1);
  }
}
