/**
  Run-time values as the builders see them through Go reflection: a closed
  datatype whose every case has the `reflect.Kind` Go would report, the
  whitelist of kinds the builders accept as SQL arguments, and the
  package-level `typedSliceToInterfaceSlice` helper.
 */
module Values {
  import opened Outcomes

  /** `reflect.Kind`, in Go's declaration order. */
  datatype Kind =
    | Invalid | Bool
    | Int | Int8 | Int16 | Int32 | Int64
    | Uint | Uint8 | Uint16 | Uint32 | Uint64 | Uintptr
    | Float32 | Float64 | Complex64 | Complex128
    | Array | Chan | Func | Interface | Map | Pointer | Slice | String | Struct
    | UnsafePointer

  /** `reflect.Kind.String()`. */
  function KindName(k: Kind): string {
    match k
    case Invalid => "invalid"
    case Bool => "bool"
    case Int => "int"
    case Int8 => "int8"
    case Int16 => "int16"
    case Int32 => "int32"
    case Int64 => "int64"
    case Uint => "uint"
    case Uint8 => "uint8"
    case Uint16 => "uint16"
    case Uint32 => "uint32"
    case Uint64 => "uint64"
    case Uintptr => "uintptr"
    case Float32 => "float32"
    case Float64 => "float64"
    case Complex64 => "complex64"
    case Complex128 => "complex128"
    case Array => "array"
    case Chan => "chan"
    case Func => "func"
    case Interface => "interface"
    case Map => "map"
    case Pointer => "ptr"
    case Slice => "slice"
    case String => "string"
    case Struct => "struct"
    case UnsafePointer => "unsafe.Pointer"
  }

  /** Kinds whose values the model treats as opaque tokens. */
  type OpaqueKind = k: Kind | k in {Uintptr, Complex64, Complex128, Chan, Func, Map, Pointer, Struct, UnsafePointer}
    witness Map

  /** Go's `int`/`uint` (platform width) and the fixed widths. */
  datatype IntWidth = Native | Bits8 | Bits16 | Bits32 | Bits64

  /** A dynamic value held in an `interface{}`. Floats, maps, pointers and the
      other kinds the builders never look inside are opaque tokens. A list
      records the kind of its STATIC element type: that is what
      `reflect.Value.Index(i).Kind()` reports, so every element of an
      `[]interface{}` has kind Interface whatever it holds. */
  datatype Value =
    | Nil
    | BoolValue(b: bool)
    | IntValue(width: IntWidth, i: int)
    | UintValue(width: IntWidth, n: nat)
    | FloatValue(double: bool, bits: nat)
    | StringValue(s: string)
    | ListValue(isArray: bool, elemKind: Kind, items: seq<Value>)
    | OpaqueValue(kind: OpaqueKind, id: nat)

  /** A list whose items all have the kind of its static element type, as
      every Go slice or array of a concrete element type does; only an
      `[]interface{}` (element kind Interface) may hold items of any kind.
      The datatype can also express lists that are no Go value (a `[]string`
      holding an int); the builders look only at the element kind, exactly
      as `reflect` does, so no contract depends on excluding them. */
  predicate Consistent(v: Value) {
    v.ListValue? && v.elemKind != Interface ==>
      forall i :: 0 <= i < |v.items| ==> KindOf(v.items[i]) == v.elemKind
  }

  /** `reflect.ValueOf(v).Kind()`; nil has kind Invalid. */
  function KindOf(v: Value): (k: Kind)
    ensures k == Invalid <==> v == Nil
    ensures k != Interface
  {
    match v
    case Nil => Invalid
    case BoolValue(_) => Bool
    case IntValue(w, _) =>
      (match w
       case Native => Int
       case Bits8 => Int8
       case Bits16 => Int16
       case Bits32 => Int32
       case Bits64 => Int64)
    case UintValue(w, _) =>
      (match w
       case Native => Uint
       case Bits8 => Uint8
       case Bits16 => Uint16
       case Bits32 => Uint32
       case Bits64 => Uint64)
    case FloatValue(double, _) => if double then Float64 else Float32
    case StringValue(_) => String
    case ListValue(isArray, _, _) => if isArray then Array else Slice
    case OpaqueValue(k, _) => k
  }

  /** The `allowedKindValue` whitelist. */
  const AllowedKinds: set<Kind> :=
    {Array, Bool, Float32, Float64, Int, Int8, Int16, Int32, Int64,
     Slice, String, Uint, Uint8, Uint16, Uint32, Uint64}

  predicate Allowed(k: Kind) {
    k in AllowedKinds
  }

  predicate IsSequenceKind(k: Kind) {
    k == Array || k == Slice
  }

  /** The test every caller spells out: whitelisted and neither array nor slice. */
  predicate AllowedScalar(k: Kind) {
    Allowed(k) && !IsSequenceKind(k)
  }

  /** Independent reading of the whitelist in terms of values: a value passes
      the callers' scalar test exactly when it is a bool, an integer of any
      width or signedness, a float or a string. */
  predicate IsPlainScalar(v: Value) {
    v.BoolValue? || v.IntValue? || v.UintValue? || v.FloatValue? || v.StringValue?
  }

  lemma AllowedScalarIffPlain(v: Value)
    ensures AllowedScalar(KindOf(v)) <==> IsPlainScalar(v)
  {
  }

  /** Arrays and slices are whitelisted too, so "allowed" alone does not mean
      scalar; nil, opaque kinds and Interface are never allowed. */
  lemma AllowedClassification(v: Value)
    ensures v.ListValue? ==> Allowed(KindOf(v)) && !AllowedScalar(KindOf(v))
    ensures v.Nil? || v.OpaqueValue? ==> !Allowed(KindOf(v))
    ensures !Allowed(Interface) && !Allowed(Invalid)
  {
  }

  /** Because nil has kind Invalid, "non-nil or allowed kind" is just "non-nil". */
  lemma NonNilOrAllowedIsNonNil(v: Value)
    ensures (v != Nil || Allowed(KindOf(v))) <==> v != Nil
  {
  }

  function UnsupportedValueType(k: Kind): string {
    "unsupported " + KindName(k) + " value type"
  }

  /** The test insert and update apply to each value they bind: nil, or a
      whitelisted kind that is neither array nor slice. */
  predicate Bindable(v: Value) {
    v == Nil || AllowedScalar(KindOf(v))
  }

  /** The kind of the first value of `vs[j..]` that is not bindable, if any:
      the per-value loop that stops at its first "unsupported <kind> value
      type". */
  function FirstUnbindable(vs: seq<Value>, j: nat): (r: Option<Kind>)
    requires j <= |vs|
    ensures r.None? <==> forall i :: j <= i < |vs| ==> Bindable(vs[i])
    ensures r.Some? ==> exists i :: j <= i < |vs| && !Bindable(vs[i]) && r.value == KindOf(vs[i])
    decreases |vs| - j
  {
    if j == |vs| then None
    else if !Bindable(vs[j]) then Some(KindOf(vs[j]))
    else FirstUnbindable(vs, j + 1)
  }

  /** The element-copying loop: `items[i..]` appended to `acc`. */
  function CopyItems(items: seq<Value>, i: nat, acc: seq<Value>): (r: seq<Value>)
    requires i <= |items|
    ensures |r| == |acc| + |items| - i
    ensures r[..|acc|] == acc
    ensures forall j :: i <= j < |items| ==> r[|acc| + j - i] == items[j]
    decreases |items| - i
  {
    if i == |items| then acc else CopyItems(items, i + 1, acc + [items[i]])
  }

  /** `typedSliceToInterfaceSlice` (package helper): a slice or array is
      copied element by element, any other value is refused with
      "unsupported <kind> value type". Elements are not checked at all. */
  function InterfaceSlice(v: Value): (r: Result<seq<Value>>)
    ensures r.Success? <==> IsSequenceKind(KindOf(v))
    ensures r.Success? ==> r.value == v.items
    ensures r.Failure? ==> r.fault == Error(UnsupportedValueType(KindOf(v)))
  {
    if KindOf(v) != Slice && KindOf(v) != Array then
      Failure(Error(UnsupportedValueType(KindOf(v))))
    else
      Success(CopyItems(v.items, 0, []))
  }
}
