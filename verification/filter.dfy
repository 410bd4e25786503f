/**
  The condition tree (`Filter`): its validator, its compiler to a SQL
  boolean expression with an ordered argument list, and the facts that tie
  the two together.
 */
module Filters {
  import opened Outcomes
  import opened Text
  import opened Values
  import opened Dialects

  // Operator identifiers (the `FilterOperator` string constants)
  const Equal := "equal"
  const NotEqual := "not_equal"
  const GreaterThan := "greater_than"
  const GreaterThanOrEqual := "greater_than_or_equal"
  const LessThan := "less_than"
  const LessThanOrEqual := "less_than_or_equal"
  const IsNull := "is_null"
  const IsNotNull := "is_not_null"
  const In := "in"
  const NotIn := "not_in"
  const Like := "like"
  const NotLike := "not_like"

  // Logic identifiers (the `FilterLogic` string constants)
  const And := "and"
  const Or := "or"

  /** `filterOperatorMap`: identifier to SQL symbol. */
  const OperatorSymbols: map<string, string> := map[
    Equal := "=", NotEqual := "!=", GreaterThan := ">",
    GreaterThanOrEqual := ">=", LessThan := "<", LessThanOrEqual := "<=",
    IsNull := "is null", IsNotNull := "is not null", In := "in",
    NotIn := "not in", Like := "like", NotLike := "not like"]

  /** A Go map lookup: the zero value "" for an identifier not in the map. */
  function Symbol(op: string): string {
    if op in OperatorSymbols then OperatorSymbols[op] else ""
  }

  predicate IsComparison(op: string) {
    op in {Equal, NotEqual, GreaterThan, GreaterThanOrEqual, LessThan, LessThanOrEqual}
  }

  predicate IsNullCheck(op: string) {
    op == IsNull || op == IsNotNull
  }

  predicate IsMembership(op: string) {
    op == In || op == NotIn
  }

  predicate IsPattern(op: string) {
    op == Like || op == NotLike
  }

  /** One of the twelve operators the compiler renders. */
  predicate IsKnownOperator(op: string) {
    IsComparison(op) || IsNullCheck(op) || IsMembership(op) || IsPattern(op)
  }

  /** The four operator classes are pairwise disjoint, so every known
      operator is handled by exactly one branch of the compiler. */
  lemma OperatorClassesDisjoint(op: string)
    ensures IsNullCheck(op) ==> !IsComparison(op)
    ensures IsMembership(op) ==> !IsComparison(op) && !IsNullCheck(op)
    ensures IsPattern(op) ==> !IsComparison(op) && !IsNullCheck(op) && !IsMembership(op)
  {
  }

  /** A node of the condition tree. Logic, field and operator are plain
      strings (Go's `FilterLogic`/`FilterOperator` are string types); an
      absent child (`nil` in `Filters`) is `None`. Whether a node is a logic
      node or a leaf is decided by validation, not by the type. */
  datatype Filter = Filter(
    logic: string,
    field: string,
    operator: string,
    value: Value,
    filters: seq<Option<Filter>>)

  /** `NewFilter()` and the zero `Filter{}` literal. */
  const EmptyFilter := Filter("", "", "", Nil, [])

  // ---------------------------------------------------------------------
  // Validation

  function UnsupportedForOperator(k: Kind, op: string): string {
    "unsupported " + KindName(k) + " value type for operator " + op
  }

  function UnsupportedElement(k: Kind): string {
    "unsupported " + KindName(k) + " type of element value"
  }

  function UnsupportedPattern(k: Kind, op: string): string {
    "unsupported " + KindName(k) + " type of value for operator " + op
  }

  /** The kind `reflect` reports for element `i` of a list: that of its
      static element type. */
  function ElementKind(v: Value, i: nat): Kind
    requires v.ListValue? && i < |v.items|
  {
    v.elemKind
  }

  /** The element loop of the `in`/`not_in` check: the kind of the first
      element from `i` on that is not an allowed scalar. */
  function FirstBadElement(v: Value, i: nat): (r: Option<Kind>)
    requires v.ListValue? && i <= |v.items|
    ensures r.None? <==> forall j :: i <= j < |v.items| ==> AllowedScalar(ElementKind(v, j))
    ensures r.Some? ==> !AllowedScalar(r.value)
    decreases |v.items| - i
  {
    if i == |v.items| then None
    else if !AllowedScalar(ElementKind(v, i)) then Some(ElementKind(v, i))
    else FirstBadElement(v, i + 1)
  }

  /** For a list of a concrete element type, whose items all have that
      type's kind, the element loop judges the items themselves: it passes
      exactly when every item is a bool, an integer, a float or a string. */
  lemma ConsistentElementCheck(v: Value)
    requires v.ListValue? && Consistent(v) && v.elemKind != Interface
    ensures FirstBadElement(v, 0).None? <==> forall i :: 0 <= i < |v.items| ==> IsPlainScalar(v.items[i])
  {
    forall i | 0 <= i < |v.items|
      ensures AllowedScalar(ElementKind(v, i)) <==> IsPlainScalar(v.items[i])
    {
      AllowedScalarIffPlain(v.items[i]);
    }
  }

  /** The checks a leaf (no logic, no children) makes on itself, in source
      order. */
  function LeafError(f: Filter): Option<string> {
    var op := f.operator;
    var k := KindOf(f.value);
    if f.field == "" then Some("field is required")
    else if op == "" then Some("operator is required")
    else if !IsNullCheck(op) && f.value == Nil then Some("value is required")
    else if !IsNullCheck(op) && !Allowed(k) then Some(UnsupportedForOperator(k, op))
    else if IsNullCheck(op) && f.value != Nil then Some("value is not empty")
    else if !IsMembership(op) && IsSequenceKind(k) then Some(UnsupportedForOperator(k, op))
    else if IsMembership(op) && !IsSequenceKind(k) then Some(UnsupportedForOperator(k, op))
    else if IsMembership(op) && |f.value.items| == 0 then Some("value is required")
    else if IsMembership(op) && FirstBadElement(f.value, 0).Some? then
      Some(UnsupportedElement(FirstBadElement(f.value, 0).value) + " for operator " + op)
    else if IsPattern(op) && k != String then Some(UnsupportedPattern(k, op))
    else None
  }

  /** The checks a node makes on its own shape before its children are
      visited, in source order. */
  function NodeError(f: Filter): Option<string> {
    if f.logic != "" && f.field != "" then Some("field is not empty")
    else if f.logic != "" && f.operator != "" then Some("operator is not empty")
    else if f.logic != "" && (f.value != Nil || Allowed(KindOf(f.value))) then Some("value is not empty")
    else if f.logic != "" && |f.filters| == 0 then Some("filters is required")
    else if f.logic == "" && |f.filters| > 0 then Some("logic is required")
    else if f.logic == "" && |f.filters| == 0 then LeafError(f)
    else None
  }

  /** `Filter.validate`: the node's own shape first, then each child left
      to right; the first error wins. Visiting a nil child dereferences it,
      which panics in Go. */
  function Validate(f: Filter): (r: Option<Fault>)
    ensures NodeError(f).Some? ==> r == Some(Error(NodeError(f).value))
    decreases f, |f.filters| + 1
  {
    match NodeError(f)
    case Some(msg) => Some(Error(msg))
    case None => ValidateChildren(f, 0)
  }

  function ValidateChildren(f: Filter, i: nat): Option<Fault>
    requires i <= |f.filters|
    decreases f, |f.filters| - i
  {
    if i == |f.filters| then None
    else match f.filters[i]
      case None => Some(NilDereference)
      case Some(child) =>
        var e := Validate(child);
        if e.Some? then e else ValidateChildren(f, i + 1)
  }

  /** Reference reading of the leaf rules: a field and an operator; a value
      exactly when the operator is not a null check, and then of an allowed
      kind; a list exactly for `in`/`not_in`, non-empty and of allowed
      scalar elements; a string for the pattern operators. */
  predicate LeafWellFormed(f: Filter) {
    var op, k := f.operator, KindOf(f.value);
    && f.field != "" && op != ""
    && (IsNullCheck(op) ==> f.value == Nil)
    && (!IsNullCheck(op) ==> f.value != Nil && Allowed(k))
    && (IsMembership(op) <==> IsSequenceKind(k))
    && (IsMembership(op) ==>
          f.value.ListValue? && |f.value.items| > 0
          && forall j :: 0 <= j < |f.value.items| ==> AllowedScalar(ElementKind(f.value, j)))
    && (IsPattern(op) ==> k == String)
  }

  lemma LeafErrorIffMalformed(f: Filter)
    ensures LeafError(f).None? <==> LeafWellFormed(f)
  {
    if IsMembership(f.operator) && f.value.ListValue? {
      assert FirstBadElement(f.value, 0).None?
        <==> forall j :: 0 <= j < |f.value.items| ==> AllowedScalar(ElementKind(f.value, j));
    }
  }

  /** Reference reading of a node's own shape: a logic node carries children
      and nothing else; a node without logic has no children and is a
      well-formed leaf. */
  predicate NodeWellFormed(f: Filter) {
    if f.logic != "" then f.field == "" && f.operator == "" && f.value == Nil && |f.filters| > 0
    else |f.filters| == 0 && LeafWellFormed(f)
  }

  lemma NodeErrorIffMalformed(f: Filter)
    ensures NodeError(f).None? <==> NodeWellFormed(f)
  {
    NonNilOrAllowedIsNonNil(f.value);
    LeafErrorIffMalformed(f);
  }

  /** Reference reading of the whole tree: every node is well formed and no
      child is nil. */
  predicate TreeWellFormed(f: Filter)
    decreases f, 1
  {
    NodeWellFormed(f) && ChildrenWellFormed(f, 0)
  }

  predicate ChildrenWellFormed(f: Filter, i: nat)
    requires i <= |f.filters|
    decreases f, 0, |f.filters| - i
  {
    i == |f.filters| || (f.filters[i].Some? && TreeWellFormed(f.filters[i].value) && ChildrenWellFormed(f, i + 1))
  }

  /** Validation accepts exactly the well-formed trees without nil
      children. */
  lemma {:induction false} ValidateIffWellFormed(f: Filter)
    ensures Validate(f).None? <==> TreeWellFormed(f)
    decreases f, 1
  {
    NodeErrorIffMalformed(f);
    if NodeError(f).None? {
      ValidateChildrenIffWellFormed(f, 0);
    }
  }

  lemma {:induction false} ValidateChildrenIffWellFormed(f: Filter, i: nat)
    requires i <= |f.filters|
    ensures ValidateChildren(f, i).None? <==> ChildrenWellFormed(f, i)
    decreases f, 0, |f.filters| - i
  {
    if i < |f.filters| && f.filters[i].Some? {
      ValidateIffWellFormed(f.filters[i].value);
      ValidateChildrenIffWellFormed(f, i + 1);
    }
  }

  // ---------------------------------------------------------------------
  // Compilation

  /** The `(string, []interface{}, error)` triple of the compiler. */
  datatype Compiled = Compiled(text: string, args: seq<Value>, err: Option<Fault>)

  /** The method form of `typedSliceToInterfaceSlice` in the filter: like the
      package helper, but it refuses an element that is not an allowed
      scalar. */
  function FlattenElements(v: Value): (r: Result<seq<Value>>)
    ensures r.Success? <==>
      v.ListValue? && forall j :: 0 <= j < |v.items| ==> AllowedScalar(ElementKind(v, j))
    ensures r.Success? ==> r.value == v.items
    ensures r.Failure? ==> r.fault.Error?
    ensures !IsSequenceKind(KindOf(v)) ==> r == Failure(Error(UnsupportedValueType(KindOf(v))))
    ensures v.ListValue? && r.Failure? ==>
      FirstBadElement(v, 0).Some? && r == Failure(Error(UnsupportedElement(FirstBadElement(v, 0).value)))
  {
    if !IsSequenceKind(KindOf(v)) then Failure(Error(UnsupportedValueType(KindOf(v))))
    else FlattenFrom(v, 0, [])
  }

  function FlattenFrom(v: Value, i: nat, acc: seq<Value>): (r: Result<seq<Value>>)
    requires v.ListValue? && i <= |v.items| && acc == v.items[..i]
    ensures r.Success? <==> forall j :: i <= j < |v.items| ==> AllowedScalar(ElementKind(v, j))
    ensures r.Success? ==> r.value == v.items
    ensures r.Failure? ==> r.fault.Error?
    ensures r.Failure? ==>
      FirstBadElement(v, i).Some? && r == Failure(Error(UnsupportedElement(FirstBadElement(v, i).value)))
    decreases |v.items| - i
  {
    if i == |v.items| then Success(acc)
    else if !AllowedScalar(ElementKind(v, i)) then
      Failure(Error(UnsupportedElement(ElementKind(v, i))))
    else
      assert v.items[..i + 1] == acc + [v.items[i]];
      FlattenFrom(v, i + 1, acc + [v.items[i]])
  }

  /** The pattern keyword: the operator's own symbol in MySQL, the
      case-insensitive `ilike` / `not ilike` in Postgres, and nothing in any
      other dialect. */
  function LikeKeyword(d: Dialect, op: string): string {
    if d == MySQL then Symbol(op)
    else if d == Postgres then (if op == NotLike then "not ilike" else "ilike")
    else ""
  }

  /** `Filter.toSQLWithArgs`: renders the node, threading the argument list.
      Placeholders are numbered by the argument's position in the list as it
      stands once that argument has been appended. A node without a known
      operator is a logic node: its non-empty child fragments are joined with
      its logic word and parenthesised unless it is the root. */
  function Compile(f: Filter, d: Dialect, args: seq<Value>, isRoot: bool): (r: Compiled)
    ensures r.err.Some? ==> r.text == "" && r.err.value.Error?
    ensures r.err.None? ==> args <= r.args
    ensures d != "" && IsMembership(f.operator) && FlattenElements(f.value).Failure? ==>
      r == Compiled("", [], Some(Error(FlattenElements(f.value).fault.msg + " for operator " + f.operator)))
    decreases f, |f.filters| + 1
  {
    var op := f.operator;
    if d == "" then Compiled("", args, Some(Error("dialect is required")))
    else if IsComparison(op) then
      var args' := args + [f.value];
      Compiled(f.field + " " + Symbol(op) + " " + Placeholder(d, |args'|, |args'|), args', None)
    else if IsNullCheck(op) then
      Compiled(f.field + " " + Symbol(op), args, None)
    else if IsMembership(op) then
      match FlattenElements(f.value)
      case Failure(e) => Compiled("", [], Some(Error(e.msg + " for operator " + op)))
      case Success(items) =>
        var args' := args + items;
        var ph := Placeholder(d, |args'| - (|items| - 1), |args'|);
        Compiled(f.field + " " + Symbol(op) + " (" + ph + ")", args', None)
    else if IsPattern(op) then
      var args' := args + [f.value];
      var ph := Placeholder(d, |args'|, |args'|);
      Compiled(f.field + " " + LikeKeyword(d, op) + " concat('%', " + ph + ", '%')", args', None)
    else if |f.filters| == 0 then Compiled("", args, None)
    else CompileChildren(f, d, isRoot, 0, args, [])
  }

  /** The child loop of a logic node: children `i..` compiled in order from
      `args`, `frags` holding the non-empty fragments so far. A nil child ends
      the node at once with empty text; an error ends it with the arguments
      accumulated before the failing child. */
  function CompileChildren(f: Filter, d: Dialect, isRoot: bool, i: nat, args: seq<Value>, frags: seq<string>)
    : (r: Compiled)
    requires d != "" && i <= |f.filters|
    ensures r.err.Some? ==> r.text == "" && r.err.value.Error?
    ensures r.err.None? ==> args <= r.args
    decreases f, |f.filters| - i
  {
    if i == |f.filters| then
      if |frags| == 0 then Compiled("", args, None)
      else
        var joined := Join(frags, " " + f.logic + " ");
        Compiled(if isRoot then joined else "(" + joined + ")", args, None)
    else match f.filters[i]
      case None => Compiled("", args, None)
      case Some(child) =>
        var sub := Compile(child, d, args, false);
        if sub.err.Some? then Compiled("", args, sub.err)
        else
          var frags' := if sub.text != "" then frags + [sub.text] else frags;
          CompileChildren(f, d, isRoot, i + 1, sub.args, frags')
  }

  /** `Filter.ToSQLWithArgs`: validation, then compilation as the root. A
      validation error returns "" and the caller's arguments unchanged. */
  function ToSQLWithArgs(f: Filter, d: Dialect, args: seq<Value>): (r: Compiled)
    ensures Validate(f).Some? ==> r == Compiled("", args, Validate(f))
  {
    match Validate(f)
    case Some(e) => Compiled("", args, Some(e))
    case None => Compile(f, d, args, true)
  }

  // ---------------------------------------------------------------------
  // Reference: the values a tree binds

  /** The values the tree binds, leaf by leaf in pre-order, left to right: one
      for a comparison or pattern, none for a null check, every element for a
      membership test. A logic node stops at its first nil child. */
  function LeafArgs(f: Filter): seq<Value>
    decreases f, |f.filters| + 1
  {
    var op := f.operator;
    if IsComparison(op) || IsPattern(op) then [f.value]
    else if IsNullCheck(op) then []
    else if IsMembership(op) then (if f.value.ListValue? then f.value.items else [])
    else ChildArgs(f, 0)
  }

  function ChildArgs(f: Filter, i: nat): seq<Value>
    requires i <= |f.filters|
    decreases f, |f.filters| - i
  {
    if i == |f.filters| then []
    else match f.filters[i]
      case None => []
      case Some(child) => LeafArgs(child) + ChildArgs(f, i + 1)
  }

  /** Argument threading: a successful compilation returns the caller's
      arguments followed by exactly the tree's bound values, in pre-order. */
  lemma {:induction false} CompileArgs(f: Filter, d: Dialect, args: seq<Value>, isRoot: bool)
    ensures var r := Compile(f, d, args, isRoot);
      r.err.None? ==> r.args == args + LeafArgs(f)
    decreases f, |f.filters| + 1
  {
    var op := f.operator;
    if d != "" && !IsKnownOperator(op) && |f.filters| > 0 {
      ChildrenArgs(f, d, isRoot, 0, args, []);
    }
  }

  lemma {:induction false} ChildrenArgs(f: Filter, d: Dialect, isRoot: bool, i: nat, args: seq<Value>, frags: seq<string>)
    requires d != "" && i <= |f.filters|
    ensures var r := CompileChildren(f, d, isRoot, i, args, frags);
      r.err.None? ==> r.args == args + ChildArgs(f, i)
    decreases f, |f.filters| - i
  {
    if i < |f.filters| && f.filters[i].Some? {
      var child := f.filters[i].value;
      var sub := Compile(child, d, args, false);
      CompileArgs(child, d, args, false);
      if sub.err.None? {
        var frags' := if sub.text != "" then frags + [sub.text] else frags;
        ChildrenArgs(f, d, isRoot, i + 1, sub.args, frags');
        CompileChildrenCons(f, d, isRoot, i, args, frags);
        var r := CompileChildren(f, d, isRoot, i, args, frags);
        if r.err.None? {
          ArgsSplice(r.args, sub.args, args, LeafArgs(child), ChildArgs(f, i + 1));
        }
      }
    }
  }

  /** The child loop after a child that compiled without error carries on
      from the arguments and fragments that child left. */
  lemma CompileChildrenCons(f: Filter, d: Dialect, isRoot: bool, i: nat, args: seq<Value>, frags: seq<string>)
    requires d != "" && i < |f.filters| && f.filters[i].Some?
    requires Compile(f.filters[i].value, d, args, false).err.None?
    ensures var sub := Compile(f.filters[i].value, d, args, false);
      && CompileChildren(f, d, isRoot, i, args, frags)
         == CompileChildren(f, d, isRoot, i + 1, sub.args, if sub.text != "" then frags + [sub.text] else frags)
      && ChildArgs(f, i) == LeafArgs(f.filters[i].value) + ChildArgs(f, i + 1)
  {
  }

  lemma ArgsSplice(all: seq<Value>, mid: seq<Value>, args: seq<Value>, head: seq<Value>, rest: seq<Value>)
    requires mid == args + head
    requires all == mid + rest
    ensures all == args + (head + rest)
  {
  }

  /** A tree that validates has no nil child and compiles without error in
      any non-empty dialect. */
  lemma {:induction false} ValidCompiles(f: Filter, d: Dialect, args: seq<Value>, isRoot: bool)
    requires Validate(f).None? && d != ""
    ensures Compile(f, d, args, isRoot).err.None?
    decreases f, |f.filters| + 1
  {
    var op := f.operator;
    if IsMembership(op) {
      assert LeafError(f).None?;
      assert FirstBadElement(f.value, 0).None?;
    } else if !IsKnownOperator(op) && |f.filters| > 0 {
      ValidChildrenCompile(f, d, isRoot, 0, args, []);
    }
  }

  lemma {:induction false} ValidChildrenCompile(f: Filter, d: Dialect, isRoot: bool, i: nat, args: seq<Value>, frags: seq<string>)
    requires d != "" && i <= |f.filters| && ValidateChildren(f, i).None?
    ensures CompileChildren(f, d, isRoot, i, args, frags).err.None?
    ensures forall j :: i <= j < |f.filters| ==> f.filters[j].Some?
    decreases f, |f.filters| - i
  {
    if i < |f.filters| {
      var child := f.filters[i].value;
      ValidCompiles(child, d, args, false);
      var sub := Compile(child, d, args, false);
      var frags' := if sub.text != "" then frags + [sub.text] else frags;
      ValidChildrenCompile(f, d, isRoot, i + 1, sub.args, frags');
    }
  }

  /** The public entry point: a validation error (or the panic on a nil
      child) comes back with the caller's arguments; a valid tree in an empty
      dialect fails with "dialect is required", also with the caller's
      arguments; otherwise the call succeeds and appends the tree's bound
      values in pre-order. */
  lemma ToSQLWithArgsOutcome(f: Filter, d: Dialect, args: seq<Value>)
    ensures var r := ToSQLWithArgs(f, d, args);
      && (Validate(f).Some? ==> r == Compiled("", args, Validate(f)))
      && (Validate(f).None? && d == "" ==> r == Compiled("", args, Some(Error("dialect is required"))))
      && (Validate(f).None? && d != "" ==> r.err.None? && r.args == args + LeafArgs(f))
  {
    if Validate(f).None? && d != "" {
      ValidCompiles(f, d, args, true);
      CompileArgs(f, d, args, true);
    }
  }

  /** Once the tree validates, the public entry point is the compiler run
      as the root. */
  lemma ValidToSQL(f: Filter, d: Dialect, args: seq<Value>)
    requires Validate(f).None?
    ensures ToSQLWithArgs(f, d, args) == Compile(f, d, args, true)
  {
  }

  // ---------------------------------------------------------------------
  // Parenthesisation and lenient children

  /** The child loop does not depend on `isRoot` until its final join. */
  lemma {:induction false} ChildrenRootVsNested(f: Filter, d: Dialect, i: nat, args: seq<Value>, frags: seq<string>)
    requires d != "" && i <= |f.filters|
    requires forall j :: 0 <= j < |frags| ==> frags[j] != ""
    ensures var root := CompileChildren(f, d, true, i, args, frags);
      var nested := CompileChildren(f, d, false, i, args, frags);
      && nested.args == root.args && nested.err == root.err
      && nested.text == (if root.text == "" then "" else "(" + root.text + ")")
    decreases |f.filters| - i
  {
    if i == |f.filters| {
      JoinEmpty(frags, " " + f.logic + " ");
    } else if f.filters[i].Some? {
      var sub := Compile(f.filters[i].value, d, args, false);
      if sub.err.None? {
        var frags' := if sub.text != "" then frags + [sub.text] else frags;
        ChildrenRootVsNested(f, d, i + 1, sub.args, frags');
      }
    }
  }

  /** A logic node compiled as the root renders without the outer pair of
      parentheses it gets when nested; everything else is identical. */
  lemma RootVsNested(f: Filter, d: Dialect, args: seq<Value>)
    requires d != "" && !IsKnownOperator(f.operator)
    ensures var root := Compile(f, d, args, true);
      var nested := Compile(f, d, args, false);
      && nested.args == root.args && nested.err == root.err
      && nested.text == (if root.text == "" then "" else "(" + root.text + ")")
  {
    if |f.filters| > 0 {
      ChildrenRootVsNested(f, d, 0, args, []);
    }
  }

  /** A child that is nil or the zero filter. */
  predicate Blank(c: Option<Filter>) {
    c.None? || c.value == EmptyFilter
  }

  lemma {:induction false} BlankChildrenCompile(f: Filter, d: Dialect, isRoot: bool, i: nat, args: seq<Value>)
    requires d != "" && i <= |f.filters|
    requires forall j :: i <= j < |f.filters| ==> Blank(f.filters[j])
    ensures CompileChildren(f, d, isRoot, i, args, []) == Compiled("", args, None)
    decreases |f.filters| - i
  {
    if i < |f.filters| && f.filters[i].Some? {
      BlankChildrenCompile(f, d, isRoot, i + 1, args);
    }
  }

  /** Nil and empty children are tolerated: a logic node whose children are
      all nil or zero filters compiles to "" with the arguments unchanged and
      no error. */
  lemma BlankChildrenTolerated(f: Filter, d: Dialect, args: seq<Value>, isRoot: bool)
    requires d != "" && !IsKnownOperator(f.operator)
    requires forall j :: 0 <= j < |f.filters| ==> Blank(f.filters[j])
    ensures Compile(f, d, args, isRoot) == Compiled("", args, None)
  {
    if |f.filters| > 0 {
      BlankChildrenCompile(f, d, isRoot, 0, args);
    }
  }

  /** A nil child stops its logic node: whatever follows it is not compiled,
      and the node yields "" with the arguments of the children before it. */
  lemma NilChildStops(f: Filter, d: Dialect, isRoot: bool, i: nat, args: seq<Value>, frags: seq<string>)
    requires d != "" && i < |f.filters| && f.filters[i].None?
    ensures CompileChildren(f, d, isRoot, i, args, frags) == Compiled("", args, None)
  {
  }
}
