/**
  The dialect-neutral layout of a compiled condition tree: column names,
  operator symbols, punctuation, pattern keywords and placeholder groups
  naming argument positions. Rendering the layout in a dialect reproduces the
  compiler's text, and its placeholder groups, read left to right, name the
  positions of the bound arguments one after another: the k-th placeholder of
  the tree carries the 1-based position of the k-th bound value in the
  returned argument list.
 */
module FilterShape {
  import opened Outcomes
  import opened Text
  import opened Values
  import opened Dialects
  import opened Filters

  /** One piece of a compiled condition. `Slots(a, b)` stands for the
      placeholders of positions a..b. */
  datatype Piece =
    | Column(name: string)        // the field followed by a space
    | Operator(op: string)        // the operator's SQL symbol
    | Keyword(op: string)         // the pattern keyword of the dialect
    | Connective(logic: string)   // the logic word between two children
    | Space | ListOpen | Open | Close | PatternOpen | PatternClose
    | Slots(first: int, last: int)

  function RenderPiece(p: Piece, d: Dialect): string {
    match p
    case Column(name) => name + " "
    case Operator(op) => Symbol(op)
    case Keyword(op) => LikeKeyword(d, op)
    case Connective(logic) => " " + logic + " "
    case Space => " "
    case ListOpen => " ("
    case Open => "("
    case Close => ")"
    case PatternOpen => " concat('%', "
    case PatternClose => ", '%')"
    case Slots(a, b) => Placeholder(d, a, b)
  }

  function Render(ps: seq<Piece>, d: Dialect): string {
    if |ps| == 0 then "" else RenderPiece(ps[0], d) + Render(ps[1..], d)
  }

  /** The ascending integers a..b (none when b < a). */
  function Range(a: int, b: int): seq<int>
    decreases b - a
  {
    if b < a then [] else [a] + Range(a + 1, b)
  }

  lemma {:induction false} RangeElements(a: int, b: int)
    ensures |Range(a, b)| == if b < a then 0 else b - a + 1
    ensures forall k :: 0 <= k < |Range(a, b)| ==> Range(a, b)[k] == a + k
    decreases b - a
  {
    if a <= b {
      RangeElements(a + 1, b);
    }
  }

  lemma {:induction false} RangeAppend(a: int, m: int, b: int)
    requires a - 1 <= m <= b
    ensures Range(a, m) + Range(m + 1, b) == Range(a, b)
    decreases m - a
  {
    if a <= m {
      RangeAppend(a + 1, m, b);
      assert [a] + Range(a + 1, m) + Range(m + 1, b) == [a] + (Range(a + 1, m) + Range(m + 1, b));
    }
  }

  function PiecePositions(p: Piece): seq<int> {
    if p.Slots? then Range(p.first, p.last) else []
  }

  /** The argument positions the placeholders of `ps` name, in text order. */
  function Positions(ps: seq<Piece>): seq<int> {
    if |ps| == 0 then [] else PiecePositions(ps[0]) + Positions(ps[1..])
  }

  lemma {:induction false} RenderAppend(a: seq<Piece>, b: seq<Piece>, d: Dialect)
    ensures Render(a + b, d) == Render(a, d) + Render(b, d)
  {
    if |a| > 0 {
      assert (a + b)[0] == a[0];
      assert (a + b)[1..] == a[1..] + b;
      RenderAppend(a[1..], b, d);
      Associate3(RenderPiece(a[0], d), Render(a[1..], d), Render(b, d));
    } else {
      assert a + b == b;
    }
  }

  lemma {:induction false} PositionsAppend(a: seq<Piece>, b: seq<Piece>)
    ensures Positions(a + b) == Positions(a) + Positions(b)
  {
    if |a| > 0 {
      assert (a + b)[1..] == a[1..] + b;
      PositionsAppend(a[1..], b);
    } else {
      assert a + b == b;
    }
  }

  /** Every layout a node can have opens with a column or an opening
      parenthesis, so it never renders as the empty text. */
  predicate Opens(ps: seq<Piece>) {
    |ps| > 0 && (ps[0].Column? || ps[0].Open?)
  }

  lemma RenderOpens(ps: seq<Piece>, d: Dialect)
    requires Opens(ps)
    ensures Render(ps, d) != ""
  {
    assert |Render(ps, d)| >= |RenderPiece(ps[0], d)| > 0;
  }

  // ---------------------------------------------------------------------
  // Short layouts, piece by piece

  lemma RenderSingle(p: Piece, d: Dialect)
    ensures Render([p], d) == RenderPiece(p, d)
  {
    assert [p][1..] == [];
  }

  lemma RenderPair(a: Piece, b: Piece, d: Dialect)
    ensures Render([a, b], d) == RenderPiece(a, d) + RenderPiece(b, d)
  {
    assert [a, b][1..] == [b];
    RenderSingle(b, d);
  }

  lemma RenderTriple(a: Piece, b: Piece, c: Piece, d: Dialect)
    ensures Render([a, b, c], d) == RenderPiece(a, d) + (RenderPiece(b, d) + RenderPiece(c, d))
  {
    assert [a, b, c][1..] == [b, c];
    RenderPair(b, c, d);
  }

  lemma RenderFour(a: Piece, b: Piece, c: Piece, e: Piece, d: Dialect)
    ensures Render([a, b, c, e], d)
         == RenderPiece(a, d) + (RenderPiece(b, d) + (RenderPiece(c, d) + RenderPiece(e, d)))
  {
    assert [a, b, c, e][1..] == [b, c, e];
    RenderTriple(b, c, e, d);
  }

  lemma RenderFive(a: Piece, b: Piece, c: Piece, e: Piece, g: Piece, d: Dialect)
    ensures Render([a, b, c, e, g], d)
         == RenderPiece(a, d) + (RenderPiece(b, d) + (RenderPiece(c, d) + (RenderPiece(e, d) + RenderPiece(g, d))))
  {
    assert [a, b, c, e, g][1..] == [b, c, e, g];
    RenderFour(b, c, e, g, d);
  }

  lemma Associate3(a: string, b: string, c: string)
    ensures a + (b + c) == a + b + c
  {
  }

  lemma Associate4(a: string, b: string, c: string, e: string)
    ensures a + (b + (c + e)) == a + b + c + e
  {
  }

  lemma Associate5(a: string, b: string, c: string, e: string, g: string)
    ensures a + (b + (c + (e + g))) == a + b + c + e + g
  {
  }

  lemma PositionsSingle(p: Piece)
    ensures Positions([p]) == PiecePositions(p)
  {
    assert [p][1..] == [];
  }

  lemma PositionsPair(a: Piece, b: Piece)
    ensures Positions([a, b]) == PiecePositions(a) + PiecePositions(b)
  {
    assert [a, b][1..] == [b];
    PositionsSingle(b);
  }

  lemma PositionsTriple(a: Piece, b: Piece, c: Piece)
    ensures Positions([a, b, c]) == PiecePositions(a) + (PiecePositions(b) + PiecePositions(c))
  {
    assert [a, b, c][1..] == [b, c];
    PositionsPair(b, c);
  }

  lemma PositionsFour(a: Piece, b: Piece, c: Piece, e: Piece)
    ensures Positions([a, b, c, e]) == PiecePositions(a) + (PiecePositions(b) + (PiecePositions(c) + PiecePositions(e)))
  {
    assert [a, b, c, e][1..] == [b, c, e];
    PositionsTriple(b, c, e);
  }

  lemma PositionsFive(a: Piece, b: Piece, c: Piece, e: Piece, g: Piece)
    ensures Positions([a, b, c, e, g])
         == PiecePositions(a) + (PiecePositions(b) + (PiecePositions(c) + (PiecePositions(e) + PiecePositions(g))))
  {
    assert [a, b, c, e, g][1..] == [b, c, e, g];
    PositionsFour(b, c, e, g);
  }

  // ---------------------------------------------------------------------
  // Joining child layouts

  function JoinShapes(shapes: seq<seq<Piece>>, sep: Piece): seq<Piece> {
    if |shapes| == 0 then []
    else if |shapes| == 1 then shapes[0]
    else shapes[0] + [sep] + JoinShapes(shapes[1..], sep)
  }

  function RenderAll(shapes: seq<seq<Piece>>, d: Dialect): (r: seq<string>)
    ensures |r| == |shapes|
    ensures forall i :: 0 <= i < |shapes| ==> r[i] == Render(shapes[i], d)
  {
    if |shapes| == 0 then [] else [Render(shapes[0], d)] + RenderAll(shapes[1..], d)
  }

  function AllPositions(shapes: seq<seq<Piece>>): seq<int> {
    if |shapes| == 0 then [] else Positions(shapes[0]) + AllPositions(shapes[1..])
  }

  lemma {:induction false} RenderJoinShapes(shapes: seq<seq<Piece>>, sep: Piece, d: Dialect)
    ensures Render(JoinShapes(shapes, sep), d) == Join(RenderAll(shapes, d), RenderPiece(sep, d))
  {
    if |shapes| > 1 {
      RenderJoinShapes(shapes[1..], sep, d);
      RenderAppend(shapes[0] + [sep], JoinShapes(shapes[1..], sep), d);
      RenderAppend(shapes[0], [sep], d);
      RenderSingle(sep, d);
      assert RenderAll(shapes, d)[1..] == RenderAll(shapes[1..], d);
    }
  }

  lemma {:induction false} PositionsJoinShapes(shapes: seq<seq<Piece>>, sep: Piece)
    requires !sep.Slots?
    ensures Positions(JoinShapes(shapes, sep)) == AllPositions(shapes)
  {
    if |shapes| == 1 {
      assert AllPositions(shapes) == Positions(shapes[0]) + AllPositions([]);
    } else if |shapes| > 1 {
      PositionsJoinShapes(shapes[1..], sep);
      PositionsAppend(shapes[0] + [sep], JoinShapes(shapes[1..], sep));
      PositionsAppend(shapes[0], [sep]);
      PositionsSingle(sep);
    }
  }

  lemma RenderAllCons(s: seq<Piece>, rest: seq<seq<Piece>>, d: Dialect)
    ensures RenderAll((if s == [] then [] else [s]) + rest, d)
         == (if s == [] then [] else [Render(s, d)]) + RenderAll(rest, d)
  {
  }

  lemma AllPositionsCons(s: seq<Piece>, rest: seq<seq<Piece>>)
    ensures AllPositions((if s == [] then [] else [s]) + rest) == Positions(s) + AllPositions(rest)
  {
    if s == [] {
      assert [] + rest == rest;
    } else {
      assert ([s] + rest)[0] == s;
      assert ([s] + rest)[1..] == rest;
    }
  }

  // ---------------------------------------------------------------------
  // The layout of a tree

  /** The layout of a node whose bound values start after position `n`.
      A logic node with a nil child renders nothing. */
  function Shape(f: Filter, n: int, isRoot: bool): seq<Piece>
    decreases f, |f.filters| + 1
  {
    var op := f.operator;
    if IsComparison(op) then
      [Column(f.field), Operator(op), Space, Slots(n + 1, n + 1)]
    else if IsNullCheck(op) then
      [Column(f.field), Operator(op)]
    else if IsMembership(op) then
      var k := if f.value.ListValue? then |f.value.items| else 0;
      [Column(f.field), Operator(op), ListOpen, Slots(n + 1, n + k), Close]
    else if IsPattern(op) then
      [Column(f.field), Keyword(op), PatternOpen, Slots(n + 1, n + 1), PatternClose]
    else if |f.filters| == 0 || None in f.filters then []
    else
      var frags := ChildShapes(f, 0, n);
      if |frags| == 0 then []
      else
        var joined := JoinShapes(frags, Connective(f.logic));
        if isRoot then joined else [Open] + joined + [Close]
  }

  /** The non-empty layouts of children `i..`, each numbered after the values
      bound by the children before it. */
  function ChildShapes(f: Filter, i: nat, n: int): seq<seq<Piece>>
    requires i <= |f.filters|
    decreases f, |f.filters| - i
  {
    if i == |f.filters| then []
    else match f.filters[i]
      case None => []
      case Some(child) =>
        var s := Shape(child, n, false);
        (if s == [] then [] else [s]) + ChildShapes(f, i + 1, n + |LeafArgs(child)|)
  }

  lemma ChildShapesStep(f: Filter, i: nat, n: int)
    requires i < |f.filters| && f.filters[i].Some?
    ensures var child := f.filters[i].value;
      var s := Shape(child, n, false);
      ChildShapes(f, i, n) == (if s == [] then [] else [s]) + ChildShapes(f, i + 1, n + |LeafArgs(child)|)
  {
  }

  lemma ChildShapesOpen(f: Filter, i: nat, n: int)
    requires i <= |f.filters|
    ensures forall j :: 0 <= j < |ChildShapes(f, i, n)| ==> Opens(ChildShapes(f, i, n)[j])
    decreases |f.filters| - i
  {
    if i < |f.filters| && f.filters[i].Some? {
      ChildShapesOpen(f, i + 1, n + |LeafArgs(f.filters[i].value)|);
    }
  }

  /** A non-empty layout always opens with a column or a parenthesis. */
  lemma ShapeOpens(f: Filter, n: int, isRoot: bool)
    ensures Shape(f, n, isRoot) != [] ==> Opens(Shape(f, n, isRoot))
  {
    if !IsKnownOperator(f.operator) && |f.filters| > 0 {
      ChildShapesOpen(f, 0, n);
    }
  }

  /** A child layout is empty exactly when its rendering is. */
  lemma EmptyShapeEmptyText(child: Filter, n: int, d: Dialect)
    ensures Shape(child, n, false) == [] <==> Render(Shape(child, n, false), d) == ""
  {
    ShapeOpens(child, n, false);
    if Shape(child, n, false) != [] {
      RenderOpens(Shape(child, n, false), d);
    }
  }

  // ---------------------------------------------------------------------
  // Trees without nil children

  /** No nil child anywhere in the tree. */
  predicate NoNil(f: Filter)
    decreases f, |f.filters| + 1
  {
    NoNilFrom(f, 0)
  }

  predicate NoNilFrom(f: Filter, i: nat)
    requires i <= |f.filters|
    decreases f, |f.filters| - i
  {
    i == |f.filters| || (f.filters[i].Some? && NoNil(f.filters[i].value) && NoNilFrom(f, i + 1))
  }

  lemma NoNilFromAll(f: Filter, i: nat)
    requires i <= |f.filters| && NoNilFrom(f, i)
    ensures forall j :: i <= j < |f.filters| ==> f.filters[j].Some?
    decreases |f.filters| - i
  {
    if i < |f.filters| {
      NoNilFromAll(f, i + 1);
    }
  }

  /** Validation rejects every tree with a nil child. */
  lemma {:induction false} ValidHasNoNil(f: Filter)
    requires Validate(f).None?
    ensures NoNil(f)
    decreases f, |f.filters| + 1
  {
    if NodeError(f).None? {
      ValidChildrenHaveNoNil(f, 0);
    }
  }

  lemma {:induction false} ValidChildrenHaveNoNil(f: Filter, i: nat)
    requires i <= |f.filters| && ValidateChildren(f, i).None?
    ensures NoNilFrom(f, i)
    decreases f, |f.filters| - i
  {
    if i < |f.filters| {
      ValidHasNoNil(f.filters[i].value);
      ValidChildrenHaveNoNil(f, i + 1);
    }
  }

  // ---------------------------------------------------------------------
  // Rendering reproduces the compiler's text

  /** The text of a logic node given its non-empty child fragments. */
  function Wrap(frags: seq<string>, logic: string, isRoot: bool): string {
    if |frags| == 0 then ""
    else
      var joined := Join(frags, " " + logic + " ");
      if isRoot then joined else "(" + joined + ")"
  }

  /** The layout of each kind of leaf. */
  lemma LeafShape(f: Filter, n: int, isRoot: bool)
    requires IsKnownOperator(f.operator)
    ensures var op := f.operator;
      && (IsComparison(op) ==> Shape(f, n, isRoot) == [Column(f.field), Operator(op), Space, Slots(n + 1, n + 1)])
      && (IsNullCheck(op) ==> Shape(f, n, isRoot) == [Column(f.field), Operator(op)])
      && (IsMembership(op) ==>
            var k := if f.value.ListValue? then |f.value.items| else 0;
            Shape(f, n, isRoot) == [Column(f.field), Operator(op), ListOpen, Slots(n + 1, n + k), Close])
      && (IsPattern(op) ==>
            Shape(f, n, isRoot) == [Column(f.field), Keyword(op), PatternOpen, Slots(n + 1, n + 1), PatternClose])
  {
    OperatorClassesDisjoint(f.operator);
  }

  lemma ComparisonRenders(f: Filter, d: Dialect, args: seq<Value>, isRoot: bool)
    requires d != "" && IsComparison(f.operator)
    ensures Compile(f, d, args, isRoot).text == Render(Shape(f, |args|, isRoot), d)
  {
    var n := |args|;
    LeafShape(f, n, isRoot);
    RenderFour(Column(f.field), Operator(f.operator), Space, Slots(n + 1, n + 1), d);
    Associate4(f.field + " ", Symbol(f.operator), " ", Placeholder(d, n + 1, n + 1));
  }

  lemma NullCheckRenders(f: Filter, d: Dialect, args: seq<Value>, isRoot: bool)
    requires d != "" && IsNullCheck(f.operator)
    ensures Compile(f, d, args, isRoot).text == Render(Shape(f, |args|, isRoot), d)
  {
    OperatorClassesDisjoint(f.operator);
    LeafShape(f, |args|, isRoot);
    RenderPair(Column(f.field), Operator(f.operator), d);
  }

  lemma MembershipLayoutText(f: Filter, n: int, isRoot: bool, d: Dialect)
    requires IsMembership(f.operator) && f.value.ListValue?
    ensures var k := |f.value.items|;
      Render(Shape(f, n, isRoot), d)
      == f.field + " " + Symbol(f.operator) + " (" + Placeholder(d, n + 1, n + k) + ")"
  {
    OperatorClassesDisjoint(f.operator);
    var k := |f.value.items|;
    LeafShape(f, n, isRoot);
    RenderFive(Column(f.field), Operator(f.operator), ListOpen, Slots(n + 1, n + k), Close, d);
    Associate5(f.field + " ", Symbol(f.operator), " (", Placeholder(d, n + 1, n + k), ")");
  }

  lemma MembershipRenders(f: Filter, d: Dialect, args: seq<Value>, isRoot: bool)
    requires d != "" && IsMembership(f.operator)
    requires FlattenElements(f.value).Success?
    ensures Compile(f, d, args, isRoot).text == Render(Shape(f, |args|, isRoot), d)
  {
    OperatorClassesDisjoint(f.operator);
    var k := |f.value.items|;
    assert |args + f.value.items| - (k - 1) == |args| + 1;
    MembershipLayoutText(f, |args|, isRoot, d);
  }

  lemma PatternLayoutText(f: Filter, n: int, isRoot: bool, d: Dialect)
    requires IsPattern(f.operator)
    ensures Render(Shape(f, n, isRoot), d)
         == f.field + " " + LikeKeyword(d, f.operator) + " concat('%', " + Placeholder(d, n + 1, n + 1) + ", '%')"
  {
    OperatorClassesDisjoint(f.operator);
    LeafShape(f, n, isRoot);
    RenderFive(Column(f.field), Keyword(f.operator), PatternOpen, Slots(n + 1, n + 1), PatternClose, d);
    Associate5(f.field + " ", LikeKeyword(d, f.operator), " concat('%', ", Placeholder(d, n + 1, n + 1), ", '%')");
  }

  lemma PatternRenders(f: Filter, d: Dialect, args: seq<Value>, isRoot: bool)
    requires d != "" && IsPattern(f.operator)
    ensures Compile(f, d, args, isRoot).text == Render(Shape(f, |args|, isRoot), d)
  {
    OperatorClassesDisjoint(f.operator);
    PatternLayoutText(f, |args|, isRoot, d);
  }

  /** A leaf's text is its layout rendered in the dialect. */
  lemma LeafRendersShape(f: Filter, d: Dialect, args: seq<Value>, isRoot: bool)
    requires d != "" && IsKnownOperator(f.operator) && Compile(f, d, args, isRoot).err.None?
    ensures Compile(f, d, args, isRoot).text == Render(Shape(f, |args|, isRoot), d)
  {
    var op := f.operator;
    if IsComparison(op) {
      ComparisonRenders(f, d, args, isRoot);
    } else if IsNullCheck(op) {
      NullCheckRenders(f, d, args, isRoot);
    } else if IsMembership(op) {
      MembershipRenders(f, d, args, isRoot);
    } else {
      PatternRenders(f, d, args, isRoot);
    }
  }

  /** Rendering the layout of a logic node wraps its rendered child layouts. */
  lemma RenderLogicShape(f: Filter, n: int, isRoot: bool, d: Dialect)
    requires !IsKnownOperator(f.operator) && |f.filters| > 0
    requires forall j :: 0 <= j < |f.filters| ==> f.filters[j].Some?
    ensures Render(Shape(f, n, isRoot), d) == Wrap(RenderAll(ChildShapes(f, 0, n), d), f.logic, isRoot)
  {
    var frags := ChildShapes(f, 0, n);
    var sep := Connective(f.logic);
    assert None !in f.filters;
    if |frags| > 0 {
      RenderJoinShapes(frags, sep, d);
      if !isRoot {
        RenderAppend([Open] + JoinShapes(frags, sep), [Close], d);
        RenderAppend([Open], JoinShapes(frags, sep), d);
        RenderSingle(Open, d);
        RenderSingle(Close, d);
      }
    }
  }

  /** Appending one child's contribution to the fragments gathered so far:
      an empty layout adds nothing, any other adds its rendering. */
  lemma FragmentsStep(frags: seq<string>, text: string, s: seq<Piece>, all: seq<seq<Piece>>, rest: seq<seq<Piece>>, d: Dialect)
    requires text == Render(s, d)
    requires s == [] <==> Render(s, d) == ""
    requires all == (if s == [] then [] else [s]) + rest
    ensures frags + RenderAll(all, d) == (if text != "" then frags + [text] else frags) + RenderAll(rest, d)
  {
    RenderAllCons(s, rest, d);
  }

  /** The compiler's text, when it succeeds on a tree without nil children,
      is the layout rendered in the dialect. */
  lemma {:induction false} CompileRendersShape(f: Filter, d: Dialect, args: seq<Value>, isRoot: bool)
    requires NoNil(f) && d != "" && Compile(f, d, args, isRoot).err.None?
    ensures Compile(f, d, args, isRoot).text == Render(Shape(f, |args|, isRoot), d)
    decreases f, |f.filters| + 1, 0
  {
    if IsKnownOperator(f.operator) {
      LeafRendersShape(f, d, args, isRoot);
    } else if |f.filters| > 0 {
      NoNilFromAll(f, 0);
      ChildrenRenderShapes(f, d, isRoot, 0, args, []);
      RenderLogicShape(f, |args|, isRoot, d);
      assert [] + RenderAll(ChildShapes(f, 0, |args|), d) == RenderAll(ChildShapes(f, 0, |args|), d);
    }
  }

  /** One child of the loop, on the compiler's side: it compiles without
      error and the loop carries on after it. */
  lemma ChildCompileStep(f: Filter, d: Dialect, isRoot: bool, i: nat, args: seq<Value>, frags: seq<string>)
    requires d != "" && i < |f.filters| && f.filters[i].Some?
    requires CompileChildren(f, d, isRoot, i, args, frags).err.None?
    ensures var sub := Compile(f.filters[i].value, d, args, false);
      var frags' := if sub.text != "" then frags + [sub.text] else frags;
      && sub.err.None?
      && |sub.args| == |args| + |LeafArgs(f.filters[i].value)|
      && CompileChildren(f, d, isRoot, i, args, frags) == CompileChildren(f, d, isRoot, i + 1, sub.args, frags')
  {
    CompileArgs(f.filters[i].value, d, args, false);
  }

  /** One child of the loop, on the layout's side: the fragment it
      contributes (if any) is its layout rendered. */
  lemma ChildFragment(f: Filter, d: Dialect, i: nat, n: int, m: int, text: string, frags: seq<string>)
    requires i < |f.filters| && f.filters[i].Some?
    requires m == n + |LeafArgs(f.filters[i].value)|
    requires text == Render(Shape(f.filters[i].value, n, false), d)
    ensures frags + RenderAll(ChildShapes(f, i, n), d)
         == (if text != "" then frags + [text] else frags) + RenderAll(ChildShapes(f, i + 1, m), d)
  {
    var child := f.filters[i].value;
    var s, all, rest := Shape(child, n, false), ChildShapes(f, i, n), ChildShapes(f, i + 1, m);
    EmptyShapeEmptyText(child, n, d);
    ChildShapesStep(f, i, n);
    assert all == (if s == [] then [] else [s]) + rest;
    FragmentsStep(frags, text, s, all, rest, d);
  }

  lemma {:induction false} ChildrenRenderShapes(f: Filter, d: Dialect, isRoot: bool, i: nat, args: seq<Value>, frags: seq<string>)
    requires d != "" && i <= |f.filters| && NoNilFrom(f, i)
    requires CompileChildren(f, d, isRoot, i, args, frags).err.None?
    ensures CompileChildren(f, d, isRoot, i, args, frags).text
         == Wrap(frags + RenderAll(ChildShapes(f, i, |args|), d), f.logic, isRoot)
    decreases f, |f.filters| - i, 1
  {
    if i == |f.filters| {
      assert ChildShapes(f, i, |args|) == [];
      assert frags + RenderAll([], d) == frags;
    } else {
      var sub := Compile(f.filters[i].value, d, args, false);
      var frags' := if sub.text != "" then frags + [sub.text] else frags;
      ChildCompileStep(f, d, isRoot, i, args, frags);
      CompileRendersShape(f.filters[i].value, d, args, false);
      ChildFragment(f, d, i, |args|, |sub.args|, sub.text, frags);
      ChildrenRenderShapes(f, d, isRoot, i + 1, sub.args, frags');
    }
  }

  // ---------------------------------------------------------------------
  // Placeholders name consecutive positions

  /** A leaf's placeholders name the positions of the values it binds. */
  lemma LeafPositions(f: Filter, n: int, isRoot: bool)
    requires IsKnownOperator(f.operator)
    ensures Positions(Shape(f, n, isRoot)) == Range(n + 1, n + |LeafArgs(f)|)
  {
    var op := f.operator;
    LeafShape(f, n, isRoot);
    OperatorClassesDisjoint(op);
    if IsComparison(op) {
      PositionsFour(Column(f.field), Operator(op), Space, Slots(n + 1, n + 1));
    } else if IsNullCheck(op) {
      PositionsPair(Column(f.field), Operator(op));
    } else if IsMembership(op) {
      var k := if f.value.ListValue? then |f.value.items| else 0;
      PositionsFive(Column(f.field), Operator(op), ListOpen, Slots(n + 1, n + k), Close);
    } else {
      PositionsFive(Column(f.field), Keyword(op), PatternOpen, Slots(n + 1, n + 1), PatternClose);
    }
  }

  lemma LogicPositions(f: Filter, n: int, isRoot: bool)
    requires !IsKnownOperator(f.operator) && |f.filters| > 0
    requires forall j :: 0 <= j < |f.filters| ==> f.filters[j].Some?
    ensures Positions(Shape(f, n, isRoot)) == AllPositions(ChildShapes(f, 0, n))
  {
    var frags := ChildShapes(f, 0, n);
    var sep := Connective(f.logic);
    assert None !in f.filters;
    if |frags| > 0 {
      PositionsJoinShapes(frags, sep);
      if !isRoot {
        PositionsAppend([Open] + JoinShapes(frags, sep), [Close]);
        PositionsAppend([Open], JoinShapes(frags, sep));
        PositionsSingle(Open);
        PositionsSingle(Close);
      }
    }
  }

  /** The placeholders of a tree without nil children name, in text order,
      exactly the positions of the values it binds. */
  lemma {:induction false} ShapePositions(f: Filter, n: int, isRoot: bool)
    requires NoNil(f)
    ensures Positions(Shape(f, n, isRoot)) == Range(n + 1, n + |LeafArgs(f)|)
    decreases f, |f.filters| + 1
  {
    if IsKnownOperator(f.operator) {
      LeafPositions(f, n, isRoot);
    } else if |f.filters| > 0 {
      NoNilFromAll(f, 0);
      ChildPositions(f, 0, n);
      LogicPositions(f, n, isRoot);
    }
  }

  lemma ChildArgsStep(f: Filter, i: nat)
    requires i < |f.filters| && f.filters[i].Some?
    ensures |ChildArgs(f, i)| == |LeafArgs(f.filters[i].value)| + |ChildArgs(f, i + 1)|
  {
  }

  /** The first child's placeholders come first, naming the positions right
      after `n`. */
  lemma {:induction false} ChildPositionsHead(f: Filter, i: nat, n: int)
    requires i < |f.filters| && NoNilFrom(f, i)
    ensures var a := |LeafArgs(f.filters[i].value)|;
      AllPositions(ChildShapes(f, i, n)) == Range(n + 1, n + a) + AllPositions(ChildShapes(f, i + 1, n + a))
    decreases f, |f.filters| - i, 0
  {
    var child := f.filters[i].value;
    var s := Shape(child, n, false);
    var rest := ChildShapes(f, i + 1, n + |LeafArgs(child)|);
    ShapePositions(child, n, false);
    ChildShapesStep(f, i, n);
    AllPositionsCons(s, rest);
    PositionsSplice(AllPositions(ChildShapes(f, i, n)), AllPositions((if s == [] then [] else [s]) + rest),
                    Positions(s), AllPositions(rest));
  }

  lemma PositionsSplice(x: seq<int>, y: seq<int>, head: seq<int>, tail: seq<int>)
    requires x == y && y == head + tail
    ensures x == head + tail
  {
  }

  /** The loop's positions, one child further: given the positions of the
      children after child `i`, those from child `i` on follow. */
  lemma ChildPositionsCons(f: Filter, i: nat, n: int)
    requires i < |f.filters| && NoNilFrom(f, i)
    requires var m := n + |LeafArgs(f.filters[i].value)|;
      AllPositions(ChildShapes(f, i + 1, m)) == Range(m + 1, m + |ChildArgs(f, i + 1)|)
    ensures AllPositions(ChildShapes(f, i, n)) == Range(n + 1, n + |ChildArgs(f, i)|)
    decreases f, |f.filters| - i, 1
  {
    var a := |LeafArgs(f.filters[i].value)|;
    var b := |ChildArgs(f, i + 1)|;
    ChildPositionsHead(f, i, n);
    ChildArgsStep(f, i);
    RangeSplice(AllPositions(ChildShapes(f, i, n)), AllPositions(ChildShapes(f, i + 1, n + a)), n, a, b, n + |ChildArgs(f, i)|);
  }

  lemma RangeSplice(x: seq<int>, y: seq<int>, n: int, a: nat, b: nat, k: int)
    requires x == Range(n + 1, n + a) + y
    requires y == Range(n + a + 1, n + a + b)
    requires k == n + a + b
    ensures x == Range(n + 1, k)
  {
    RangeAppend(n + 1, n + a, n + a + b);
  }

  lemma {:induction false} ChildPositions(f: Filter, i: nat, n: int)
    requires i <= |f.filters| && NoNilFrom(f, i)
    ensures AllPositions(ChildShapes(f, i, n)) == Range(n + 1, n + |ChildArgs(f, i)|)
    decreases f, |f.filters| - i, 2
  {
    if i < |f.filters| {
      ChildPositions(f, i + 1, n + |LeafArgs(f.filters[i].value)|);
      ChildPositionsCons(f, i, n);
    } else {
      assert ChildShapes(f, i, n) == [];
    }
  }

  // ---------------------------------------------------------------------
  // The public entry point

  /** Positional correctness. For a tree that validates, in any non-empty
      dialect: the text is the layout rendered in that dialect, and the k-th
      placeholder names position |args| + k + 1 of the returned list, which
      holds the k-th value the tree binds. */
  lemma PositionalPlaceholders(f: Filter, d: Dialect, args: seq<Value>)
    requires Validate(f).None? && d != ""
    ensures var r := ToSQLWithArgs(f, d, args);
      var ps := Shape(f, |args|, true);
      && r.err.None?
      && r.text == Render(ps, d)
      && NamesInOrder(Positions(ps), r.args, args, LeafArgs(f))
  {
    ValidToSQL(f, d, args);
    ValidCompiles(f, d, args, true);
    ValidHasNoNil(f);
    CompiledLayout(f, d, args);
  }

  /** The same, for the compiler run as the root on a tree without nil
      children. */
  lemma CompiledLayout(f: Filter, d: Dialect, args: seq<Value>)
    requires NoNil(f) && d != "" && Compile(f, d, args, true).err.None?
    ensures var r := Compile(f, d, args, true);
      var ps := Shape(f, |args|, true);
      r.text == Render(ps, d) && NamesInOrder(Positions(ps), r.args, args, LeafArgs(f))
  {
    CompileRendersShape(f, d, args, true);
    CompileArgs(f, d, args, true);
    ShapePositions(f, |args|, true);
    RangeIndexes(Positions(Shape(f, |args|, true)), Compile(f, d, args, true).args, args, LeafArgs(f));
  }

  /** The placeholder positions `ps` name, in order, the slots of the
      returned list `all` after the caller's `args`, and those slots hold
      `values`: the k-th placeholder is position |args| + k + 1 and that
      position holds the k-th value. */
  predicate NamesInOrder(ps: seq<int>, all: seq<Value>, args: seq<Value>, values: seq<Value>) {
    && |ps| == |all| - |args| == |values|
    && forall k :: 0 <= k < |ps| ==> ps[k] == |args| + k + 1 && 0 < ps[k] <= |all| && all[ps[k] - 1] == values[k]
  }

  /** Consecutive positions from |args| + 1 over `args + values` name exactly
      `values`. */
  lemma RangeIndexes(ps: seq<int>, all: seq<Value>, args: seq<Value>, values: seq<Value>)
    requires ps == Range(|args| + 1, |args| + |values|)
    requires all == args + values
    ensures NamesInOrder(ps, all, args, values)
  {
    RangeElements(|args| + 1, |args| + |values|);
    assert |ps| == |values|;
    forall k | 0 <= k < |ps|
      ensures ps[k] == |args| + k + 1 && 0 < ps[k] <= |all| && all[ps[k] - 1] == values[k]
    {
      var p := ps[k];
      assert p == |args| + k + 1;
      assert all[p - 1] == values[k];
    }
  }

  /** Compiling one valid tree in MySQL and in Postgres yields the same
      layout: the two texts differ only in how placeholders and the pattern
      keyword are spelled, and the argument lists are identical. */
  lemma DialectsShareLayout(f: Filter, args: seq<Value>)
    requires Validate(f).None?
    ensures var my := ToSQLWithArgs(f, MySQL, args);
      var pg := ToSQLWithArgs(f, Postgres, args);
      var ps := Shape(f, |args|, true);
      && my.text == Render(ps, MySQL) && pg.text == Render(ps, Postgres)
      && my.args == pg.args
  {
    PositionalPlaceholders(f, MySQL, args);
    PositionalPlaceholders(f, Postgres, args);
    ToSQLWithArgsOutcome(f, MySQL, args);
    ToSQLWithArgsOutcome(f, Postgres, args);
  }
}
