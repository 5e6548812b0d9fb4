/**
  The printer of C++ types for interface variables: loops unwind nested arrays and chains of
  references, recursion handles the rest.  Messages the original exits on print nothing.
 */
module CppTypePrinter {
  import opened Options
  import opened Text
  import opened Tokens
  import opened CppTypeText

  /** A variable specification, with the fields the printer looks at. */
  datatype VarSpec =
    | VoidType
    | PredefinedType(name: string)
    | ScalarType(scalar: string)
    | StringType
    | EnumType(hasValue: bool, predefined: Option<string>, nested: Option<string>)
    | VectorType(elements: seq<VarSpec>)
    | ArrayType(size: int, elements: seq<VarSpec>)
    | StructType(values: nat, predefined: Option<string>, structName: Option<string>, subStructs: nat, name: string)
    | UnionType(values: nat, predefined: Option<string>, unionName: Option<string>)
    | SafeUnionType(values: nat, predefined: Option<string>)
    | CallbackType(predefined: Option<string>)
    | HandleType
    | InterfaceType(predefined: Option<string>)
    | MaskType(scalar: string)
    | MemoryType
    | PointerType
    | FmqSyncType(elements: seq<VarSpec>)
    | FmqUnsyncType(elements: seq<VarSpec>)
    | RefType(target: VarSpec)
    | OtherType

  /** Nesting depth along first elements and references. */
  function Height(v: VarSpec): nat {
    match v
    case VectorType(es) => if es == [] then 1 else 1 + Height(es[0])
    case ArrayType(_, es) => if es == [] then 1 else 1 + Height(es[0])
    case FmqSyncType(es) => if es == [] then 1 else 1 + Height(es[0])
    case FmqUnsyncType(es) => if es == [] then 1 else 1 + Height(es[0])
    case RefType(t) => 1 + Height(t)
    case _ => 0
  }

  function ScalarText(scalar: string): Option<string> {
    if scalar in {"void", "int32_t", "uint32_t", "int8_t", "uint8_t", "int64_t", "uint64_t", "int16_t", "uint16_t"}
    then Some(scalar)
    else if scalar == "bool_t" then Some("bool")
    else if scalar == "float_t" then Some("float")
    else if scalar == "double_t" then Some("double")
    else if scalar == "ufloat" then Some("unsigned float")
    else if scalar == "udouble" then Some("unsigned double")
    else if scalar == "string" then Some("std::string")
    else if scalar == "pointer" then Some("void*")
    else if scalar == "char_pointer" then Some("char*")
    else if scalar == "uchar_pointer" then Some("unsigned char*")
    else if scalar == "void_pointer" then Some("void*")
    else if scalar == "function_pointer" then Some("void*")
    else None
  }

  /** The name printed for a type that contains no other type. */
  function LeafName(v: VarSpec): Option<string> {
    match v
    case VoidType => Some("void")
    case PredefinedType(name) => Some(name)
    case ScalarType(scalar) => ScalarText(scalar)
    case StringType => Some("::android::hardware::hidl_string")
    case EnumType(hasValue, predefined, nested) => if hasValue then nested else predefined
    case StructType(values, predefined, structName, subStructs, name) =>
      if values == 0 && predefined.Some? then predefined
      else if structName.Some? then structName
      else if subStructs > 0 || values > 0 then Some(name)
      else None
    case UnionType(values, predefined, unionName) =>
      if values == 0 && predefined.Some? then predefined else unionName
    case SafeUnionType(values, predefined) => if values == 0 then predefined else None
    case HandleType => Some("::android::hardware::hidl_handle")
    case MaskType(scalar) => ScalarText(scalar)
    case MemoryType => Some("::android::hardware::hidl_memory")
    case PointerType => Some("void*")
    case _ => None
  }

  // ---- The structure a message describes ----------------------------------------------------------

  /** The element type under a nest of arrays, if every level has a first element. */
  function ArrayBase(v: VarSpec): (base: Option<VarSpec>)
    ensures base.Some? ==> !base.value.ArrayType? && Height(base.value) <= Height(v)
    ensures base.Some? && v.ArrayType? ==> Height(base.value) < Height(v)
    decreases Height(v)
  {
    if !v.ArrayType? then Some(v)
    else if v.elements == [] then None
    else ArrayBase(v.elements[0])
  }

  /** The sizes of a nest of arrays, outermost first. */
  function ArraySizes(v: VarSpec): seq<int>
    decreases Height(v)
  {
    if !v.ArrayType? then []
    else [v.size] + if v.elements == [] then [] else ArraySizes(v.elements[0])
  }

  function Under(kind: Kind, element: Option<Shape>, dims: seq<int>): Option<Shape> {
    match element
    case None => None
    case Some(e) => Some(Shape(Generic(kind, e, dims), 0))
  }

  function FirstShape(es: seq<VarSpec>): Option<Shape>
    decreases if es == [] then 0 else Height(es[0]), 1
  {
    if es == [] then None else ShapeOf(es[0])
  }

  function Interfaced(name: Option<string>): Option<Shape> {
    match name
    case None => None
    case Some(n) => Some(Shape(Generic(Interface, Shape(Leaf(n), 0), []), 0))
  }

  /** The shape of the type a message describes; none where the printer gives up. */
  function ShapeOf(v: VarSpec): Option<Shape>
    decreases Height(v), 0
  {
    match v
    case VectorType(es) => Under(Vector, FirstShape(es), [])
    case FmqSyncType(es) => Under(SyncQueue, FirstShape(es), [])
    case FmqUnsyncType(es) => Under(UnsyncQueue, FirstShape(es), [])
    case ArrayType(_, _) =>
      (match ArrayBase(v)
       case None => None
       case Some(base) => Under(Array, ShapeOf(base), ArraySizes(v)))
    case RefType(t) =>
      (match ShapeOf(t)
       case None => None
       case Some(s) => Some(s.(refs := s.refs + 1)))
    case CallbackType(predefined) => Interfaced(predefined)
    case InterfaceType(predefined) => Interfaced(predefined)
    case _ =>
      (match LeafName(v)
       case None => None
       case Some(text) => Some(Shape(Leaf(text), 0)))
  }

  function TextOrNone(s: Option<Shape>): Option<string> {
    match s
    case None => None
    case Some(shape) => Some(TextOf(shape))
  }

  /** The printed text; references, pointers and `void` ignore or vary the const decoration. */
  function Printed(v: VarSpec, generateConst: bool): Option<string> {
    match ShapeOf(v)
    case None => None
    case Some(s) => Some(Decorated(v, TextOf(s), generateConst))
  }

  function Decorated(v: VarSpec, text: string, generateConst: bool): string {
    if !generateConst || v.VoidType? || v.RefType? then text
    else if v.PointerType? then "const " + text
    else "const " + text + "&"
  }

  /** A chain of references: its end and its length. */
  function RefBase(v: VarSpec): (base: VarSpec)
    ensures !base.RefType? && Height(base) <= Height(v) && (v.RefType? ==> Height(base) < Height(v))
  {
    if v.RefType? then RefBase(v.target) else v
  }

  function RefDepth(v: VarSpec): nat {
    if v.RefType? then 1 + RefDepth(v.target) else 0
  }

  function AddRefs(s: Option<Shape>, n: nat): Option<Shape> {
    match s
    case None => None
    case Some(shape) => Some(shape.(refs := shape.refs + n))
  }

  lemma OneRef(v: VarSpec)
    ensures ShapeOf(RefType(v)) == AddRefs(ShapeOf(v), 1)
  {
    hide LeafName;
    hide ArrayBase;
    hide ArraySizes;
  }

  lemma {:induction false} RefShape(v: VarSpec)
    ensures ShapeOf(v) == AddRefs(ShapeOf(RefBase(v)), RefDepth(v))
    decreases v
  {
    hide ShapeOf;
    if v.RefType? {
      RefShape(v.target);
      OneRef(v.target);
    }
  }

  lemma LeafText(text: string)
    ensures TextOf(Shape(Leaf(text), 0)) == text
  {
    assert text + "" == text;
  }

  lemma GenericText(kind: Kind, element: Shape, dims: seq<int>)
    ensures TextOf(Shape(Generic(kind, element, dims), 0)) == Head(kind) + "<" + TextOf(element) + DimsText(dims) + ">"
  {
    hide TextOf;
    LastOfText(Shape(Generic(kind, element, dims), 0));
    Associate(Head(kind) + "<", TextOf(element), DimsText(dims));
  }

  lemma PlainPrint(v: VarSpec)
    ensures Printed(v, false) == TextOrNone(ShapeOf(v))
  {
  }

  predicate IsLeaf(v: VarSpec) {
    !(v.VectorType? || v.ArrayType? || v.FmqSyncType? || v.FmqUnsyncType? || v.RefType?
      || v.CallbackType? || v.InterfaceType?)
  }

  lemma LeafShape(v: VarSpec)
    ensures IsLeaf(v) ==> TextOrNone(ShapeOf(v)) == LeafName(v)
    ensures v.VoidType? ==> LeafName(v) == Some("void")
    ensures v.PointerType? ==> LeafName(v) == Some("void*")
  {
    if LeafName(v).Some? {
      LeafText(LeafName(v).value);
    }
  }

  lemma RefText(s: Shape, n: nat)
    ensures TextOf(s.(refs := s.refs + n)) == TextOf(s) + Stars(n)
  {
    StarsAdd(s.refs, n);
    Associate(CoreText(s.core), Stars(s.refs), Stars(n));
  }

  // ---- The printer -------------------------------------------------------------------------------

  /** The text of a type, or none where the original ends the program. */
  method GetCppVariableType(v: VarSpec, generateConst: bool) returns (r: Option<string>)
    ensures r == Printed(v, generateConst)
    decreases Height(v), 1
  {
    hide TextOf;
    hide LeafName;
    LeafShape(v);
    match v {
      case VoidType => return Some("void");
      case VectorType(es) => r := PrintElement(Vector, es);
      case FmqSyncType(es) => r := PrintElement(SyncQueue, es);
      case FmqUnsyncType(es) => r := PrintElement(UnsyncQueue, es);
      case ArrayType(_, _) => r := PrintArray(v);
      case RefType(_) =>
        r := PrintRef(v);
        return;
      case CallbackType(predefined) => r := PrintInterface(predefined);
      case InterfaceType(predefined) => r := PrintInterface(predefined);
      case PointerType =>
        return Some(if generateConst then "const " + "void*" else "void*");
      case _ => r := LeafName(v);
    }
    if r.Some? && generateConst {
      r := Some("const " + r.value + "&");
    }
  }

  method PrintInterface(predefined: Option<string>) returns (r: Option<string>)
    ensures r == TextOrNone(Interfaced(predefined))
  {
    if predefined == None { return None; }
    LeafText(predefined.value);
    GenericText(Interface, Shape(Leaf(predefined.value), 0), []);
    assert "sp" + "<" + predefined.value + "" + ">" == "sp<" + predefined.value + ">";
    r := Some("sp<" + predefined.value + ">");
  }

  method PrintElement(kind: Kind, es: seq<VarSpec>) returns (r: Option<string>)
    ensures r == TextOrNone(Under(kind, FirstShape(es), []))
    decreases if es == [] then 0 else Height(es[0]), 2
  {
    if es == [] { return None; }
    hide TextOf;
    hide Printed;
    hide LeafName;
    var element := GetCppVariableType(es[0], false);
    PlainPrint(es[0]);
    if element == None { return None; }
    GenericText(kind, ShapeOf(es[0]).value, []);
    var text := Head(kind) + "<" + element.value;
    assert text + "" == text;
    r := Some(text + ">");
  }

  /** One level of an array: its size, and what its first element adds. */
  lemma UnwindLevel(v: VarSpec, sizes: seq<int>)
    requires v.ArrayType?
    ensures v.elements == [] ==> ArrayBase(v) == None
    ensures v.elements != [] ==>
              && ArrayBase(v) == ArrayBase(v.elements[0]) && Height(v.elements[0]) < Height(v)
              && sizes + ArraySizes(v) == (sizes + [v.size]) + ArraySizes(v.elements[0])
  {
    if v.elements != [] {
      var rest := ArraySizes(v.elements[0]);
      assert sizes + ([v.size] + rest) == (sizes + [v.size]) + rest;
    }
  }

  lemma UnwindEnds(v: VarSpec, sizes: seq<int>)
    requires !v.ArrayType?
    ensures ArrayBase(v) == Some(v) && sizes + ArraySizes(v) == sizes
  {
  }

  /** Follows first elements down a nest of arrays, collecting sizes. */
  method UnwindArray(v: VarSpec) returns (base: Option<VarSpec>, sizes: seq<int>)
    requires v.ArrayType?
    ensures base == ArrayBase(v)
    ensures base.Some? ==> sizes == ArraySizes(v) && sizes != []
  {
    hide ArrayBase;
    hide ArraySizes;
    hide Height;
    var current := v;
    sizes := [];
    assert [] + ArraySizes(v) == ArraySizes(v);
    while current.ArrayType?
      invariant ArrayBase(v) == ArrayBase(current)
      invariant ArraySizes(v) == sizes + ArraySizes(current)
      invariant current.ArrayType? || sizes != []
      decreases Height(current)
    {
      UnwindLevel(current, sizes);
      sizes := sizes + [current.size];
      if current.elements == [] { return None, sizes; }
      current := current.elements[0];
    }
    UnwindEnds(current, sizes);
    return Some(current), sizes;
  }

  /** Appends the sizes of an array, separated by commas. */
  method PrintSizes(start: string, sizes: seq<int>) returns (text: string)
    requires sizes != []
    ensures text == start + DimsText(sizes)
  {
    hide DimsText;
    hide SignedDecimal;
    text := start + ", ";
    NoDimsYet(start);
    for i := 0 to |sizes|
      invariant text == (start + DimsText(sizes[..i])) + (if i < |sizes| then ", " else "")
    {
      Associate(start + DimsText(sizes[..i]), ", ", SignedDecimal(sizes[i]));
      DimsTextLast(start, sizes, i);
      text := text + SignedDecimal(sizes[i]);
      if i != |sizes| - 1 { text := text + ", "; }
    }
    assert sizes[..|sizes|] == sizes;
  }

  lemma NoDimsYet(start: string)
    ensures start + DimsText([]) == start
  {
  }

  /** Unwinds nested arrays, then prints the element type and the sizes. */
  method PrintArray(v: VarSpec) returns (r: Option<string>)
    requires v.ArrayType?
    ensures r == TextOrNone(ShapeOf(v))
    decreases Height(v), 0
  {
    hide TextOf;
    hide Printed;
    hide LeafName;
    var base, sizes := UnwindArray(v);
    if base == None { return None; }
    var element := GetCppVariableType(base.value, false);
    PlainPrint(base.value);
    if element == None { return None; }
    var text := PrintSizes(Head(Array) + "<" + element.value, sizes);
    GenericText(Array, ShapeOf(base.value).value, sizes);
    r := Some(text + ">");
  }

  lemma DimsTextLast(start: string, d: seq<int>, i: nat)
    requires i < |d|
    ensures start + DimsText(d[..i + 1]) == (start + DimsText(d[..i])) + (", " + SignedDecimal(d[i]))
  {
    hide SignedDecimal;
    assert d[..i + 1] == d[..i] + [d[i]];
    DimsTextConcat(d[..i], [d[i]]);
    assert DimsText([d[i]]) == ", " + SignedDecimal(d[i]) + "";
    Associate(start, DimsText(d[..i]), ", " + SignedDecimal(d[i]));
  }

  /** Follows a chain of references, counting them. */
  method UnwindRef(v: VarSpec) returns (base: VarSpec, depth: nat)
    ensures base == RefBase(v) && depth == RefDepth(v)
  {
    hide Height;
    base, depth := v, 0;
    while base.RefType?
      invariant RefBase(v) == RefBase(base) && RefDepth(v) == depth + RefDepth(base)
      decreases base
    {
      depth := depth + 1;
      base := base.target;
    }
  }

  /** Counts references, prints their target and appends one star each. */
  method PrintRef(v: VarSpec) returns (r: Option<string>)
    requires v.RefType?
    ensures r == TextOrNone(ShapeOf(v))
    decreases Height(v), 0
  {
    hide TextOf;
    hide Printed;
    hide LeafName;
    hide ShapeOf;
    hide Stars;
    var current, depth := UnwindRef(v);
    RefShape(v);
    var element := GetCppVariableType(current, false);
    PlainPrint(current);
    if element == None { return None; }
    var text := element.value;
    NoStars(text);
    for i := 0 to depth
      invariant text == element.value + Stars(i)
    {
      Associate(element.value, Stars(i), STAR);
      text := text + STAR;
      StarsLast(i + 1);
    }
    r := Some(text);
    RefText(ShapeOf(current).value, depth);
  }

  lemma NoStars(text: string)
    ensures text + Stars(0) == text
  {
  }

  lemma {:induction false} StarsAdd(m: nat, n: nat)
    ensures Stars(m + n) == Stars(m) + Stars(n)
  {
    if m > 0 {
      StarsAdd(m - 1, n);
      Associate(STAR, Stars(m - 1), Stars(n));
    }
  }

  // ---- The printed text, type by type ---------------------------------------------------------------------

  /** Types around a first element or a target that prints as `t`; further elements do not matter. */
  lemma PrintedAround(e: VarSpec, t: string, rest: seq<VarSpec>)
    requires Printed(e, false) == Some(t)
    ensures Printed(VectorType([e] + rest), false) == Some("::android::hardware::hidl_vec" + "<" + t + ">")
    ensures Printed(FmqSyncType([e] + rest), false) == Some("::android::hardware::MQDescriptorSync" + "<" + t + ">")
    ensures Printed(FmqUnsyncType([e] + rest), false)
         == Some("::android::hardware::MQDescriptorUnsync" + "<" + t + ">")
  {
    hide TextOf;
    hide LeafName;
    hide Printed;
    hide FirstShape;
    hide Under;
    UnderText(Vector, e, rest, t);
    UnderText(SyncQueue, e, rest, t);
    UnderText(UnsyncQueue, e, rest, t);
    PlainPrint(VectorType([e] + rest));
    PlainPrint(FmqSyncType([e] + rest));
    PlainPrint(FmqUnsyncType([e] + rest));
    HeadTexts();
    hide Head;
  }

  lemma UnderText(kind: Kind, e: VarSpec, rest: seq<VarSpec>, t: string)
    requires Printed(e, false) == Some(t)
    ensures TextOrNone(Under(kind, FirstShape([e] + rest), [])) == Some(Head(kind) + "<" + t + ">")
  {
    PlainPrint(e);
    hide TextOf;
    hide Head;
    hide Printed;
    hide LeafName;
    assert ([e] + rest)[0] == e;
    ElementText(kind, ShapeOf(e).value);
  }

  /** A reference prints its target and a star, with const or without. */
  lemma PrintedReference(e: VarSpec, t: string)
    requires Printed(e, false) == Some(t)
    ensures Printed(RefType(e), false) == Printed(RefType(e), true) == Some(t + " const*")
  {
    PlainPrint(e);
    hide TextOf;
    hide ShapeOf;
    OneRef(e);
    RefText(ShapeOf(e).value, 1);
    StarsOne();
  }

  lemma StarsOne()
    ensures Stars(1) == " const*"
  {
    assert Stars(0) == "" && STAR + "" == STAR;
  }

  lemma HeadTexts()
    ensures Head(Interface) == "sp" && Head(Vector) == "::android::hardware::hidl_vec"
    ensures Head(Array) == "::android::hardware::hidl_array"
    ensures Head(SyncQueue) == "::android::hardware::MQDescriptorSync"
    ensures Head(UnsyncQueue) == "::android::hardware::MQDescriptorUnsync"
  {
  }

  lemma ElementText(kind: Kind, s: Shape)
    ensures TextOf(Shape(Generic(kind, s, []), 0)) == Head(kind) + "<" + TextOf(s) + ">"
  {
    hide TextOf;
    GenericText(kind, s, []);
    var text := Head(kind) + "<" + TextOf(s);
    assert text + "" == text;
  }

  /**
    An array of arrays, whatever the numbers of elements in the messages, prints its element
    once and behind it one part per level, separated by commas, which reads as its declared size.
   */
  lemma SizesReadBack(sizes: seq<int>, e: VarSpec, further: seq<seq<VarSpec>>, t: string)
    requires sizes != [] && |further| == |sizes| && !e.ArrayType? && Printed(e, false) == Some(t)
    ensures PrintsSizes(Nest(sizes, e, further), t, DimsText(sizes), sizes)
  {
    PlainPrint(e);
    hide TextOf;
    hide LeafName;
    hide Split;
    hide Atoi;
    hide DimsText;
    hide ArraySizes;
    hide ArrayBase;
    var s := ShapeOf(e).value;
    GenericText(Array, s, sizes);
    HeadTexts();
    DimsReadBack(sizes);
    NestShape(sizes, e, further);
    hide ShapeOf;
    hide Head;
  }

  lemma NestShape(sizes: seq<int>, e: VarSpec, further: seq<seq<VarSpec>>)
    requires sizes != [] && |further| == |sizes| && !e.ArrayType? && ShapeOf(e).Some?
    ensures Nest(sizes, e, further).ArrayType?
    ensures ShapeOf(Nest(sizes, e, further)) == Some(Shape(Generic(Array, ShapeOf(e).value, sizes), 0))
  {
    hide ArraySizes;
    hide ArrayBase;
    hide LeafName;
    NestUnwinds(sizes, e, further);
  }

  /** The message prints as an array of `t` with `dims` behind it, and these read as `sizes`. */
  predicate PrintsSizes(v: VarSpec, t: string, dims: string, sizes: seq<int>) {
    && Printed(v, false) == Some("::android::hardware::hidl_array" + "<" + t + dims + ">")
    && var parts := Split(dims, ',');
       && |parts| == 1 + |sizes| && parts[0] == ""
       && forall i :: 0 <= i < |sizes| ==> Atoi(parts[1 + i]) == sizes[i]
  }

  /** An array of fifteen integers. */
  lemma FifteenIntegers()
    ensures Printed(ArrayType(15, [ScalarType("int32_t")]), false)
         == Some("::android::hardware::hidl_array" + "<" + "int32_t" + ", 15" + ">")
  {
    var e := ScalarType("int32_t");
    IntegerText();
    assert Nest([15], e, [[]]) == ArrayType(15, [e]) by {
      assert [15][1..] == [] && [e] + [] == [e];
    }
    hide Printed;
    SizesReadBack([15], e, [[]], "int32_t");
    TextOfFifteen();
  }

  lemma IntegerText()
    ensures Printed(ScalarType("int32_t"), false) == Some("int32_t")
  {
    hide TextOf;
    assert LeafName(ScalarType("int32_t")) == Some("int32_t");
    LeafText("int32_t");
  }

  lemma TextOfFifteen()
    ensures DimsText([15]) == ", 15"
  {
    assert Decimal(15) == Decimal(1) + [Digit(5)] == "15";
    assert [15][1..] == [];
  }

  /** Callbacks and interfaces are strong pointers to their predefined type, and print only with one. */
  lemma PrintedPointers(predefined: Option<string>)
    ensures Printed(InterfaceType(predefined), false) == Printed(CallbackType(predefined), false)
    ensures Printed(InterfaceType(predefined), false)
         == match predefined case None => None case Some(name) => Some("sp" + "<" + name + ">")
  {
    hide TextOf;
    hide LeafName;
    if predefined.Some? {
      LeafText(predefined.value);
      ElementText(Interface, Name(predefined.value));
      HeadTexts();
    }
  }

  /** Types the printer writes out: the bare text can be read out of the decorated one. */
  lemma ConstText(v: VarSpec)
    requires Printed(v, false).Some?
    ensures var t := Printed(v, false).value;
            Printed(v, true) == Some(match v
                                     case VoidType => t
                                     case RefType(_) => t
                                     case PointerType => "const " + t
                                     case _ => "const " + t + "&")
  {
    hide ShapeOf;
    hide TextOf;
  }

  /** Types that print one fixed text, or none. */
  lemma FixedTexts()
    ensures Printed(VoidType, false) == Some("void") && Printed(PointerType, false) == Some("void*")
    ensures Printed(OtherType, false) == None
  {
    hide ScalarText;
    hide Printed;
    LeafPrint(VoidType);
    LeafPrint(PointerType);
    LeafPrint(OtherType);
  }

  lemma StringText()
    ensures Printed(StringType, false) == Some("::android::hardware::hidl_string")
  {
    hide ScalarText;
    hide Printed;
    LeafPrint(StringType);
  }

  lemma HandleText()
    ensures Printed(HandleType, false) == Some("::android::hardware::hidl_handle")
  {
    hide ScalarText;
    hide Printed;
    LeafPrint(HandleType);
  }

  lemma MemoryText()
    ensures Printed(MemoryType, false) == Some("::android::hardware::hidl_memory")
  {
    hide ScalarText;
    hide Printed;
    LeafPrint(MemoryType);
  }

  lemma LeafPrint(v: VarSpec)
    requires IsLeaf(v)
    ensures Printed(v, false) == LeafName(v)
  {
    hide ShapeOf;
    hide TextOf;
    LeafShape(v);
    PlainPrint(v);
  }

  /** Integers keep their names. */
  lemma IntegersKeepNames(x: string)
    requires x in {"int8_t", "uint8_t", "int16_t", "uint16_t", "int32_t", "uint32_t", "int64_t", "uint64_t"}
    ensures ScalarText(x) == Some(x)
  {
  }

  /** The numbers that do not print under their own names. */
  lemma RenamedNumbers()
    ensures ScalarText("bool_t") == Some("bool")
    ensures ScalarText("float_t") == Some("float") && ScalarText("double_t") == Some("double")
    ensures ScalarText("ufloat") == Some("unsigned float") && ScalarText("udouble") == Some("unsigned double")
  {
  }

  lemma RenamedPointers()
    ensures ScalarText("char_pointer") == Some("char*") && ScalarText("uchar_pointer") == Some("unsigned char*")
    ensures ScalarText("void_pointer") == ScalarText("pointer") == ScalarText("function_pointer") == Some("void*")
    ensures ScalarText("string") == Some("std::string")
  {
  }

  /** The first name, or the second if there is no first. */
  function Or(first: Option<string>, second: Option<string>): Option<string> {
    if first.Some? then first else second
  }

  function When(c: bool, name: Option<string>): Option<string> {
    if c then name else None
  }

  /** A predefined name counts only for a type without values of its own, and comes before the type's own names. */
  lemma NamesInOrder(values: nat, predefined: Option<string>, own: Option<string>, subStructs: nat, name: string)
    ensures LeafName(StructType(values, predefined, own, subStructs, name))
         == Or(When(values == 0, predefined), Or(own, When(subStructs + values > 0, Some(name))))
    ensures LeafName(UnionType(values, predefined, own)) == Or(When(values == 0, predefined), own)
    ensures LeafName(SafeUnionType(values, predefined)) == When(values == 0, predefined)
    ensures LeafName(EnumType(values > 0, predefined, own)) == Or(When(values == 0, predefined), When(values > 0, own))
  {
  }

  // ---- What the printed text guarantees -------------------------------------------------------------

  /** The shapes of messages are types in the sense of the text: arrays are flattened, only they have dimensions. */
  lemma {:induction false} ShapesAreTypes(v: VarSpec, names: iset<string>)
    requires ShapeOf(v).Some? && forall t :: t in LeafNames(ShapeOf(v).value) ==> t in names
    ensures Over(ShapeOf(v).value, names)
    ensures BareArray(ShapeOf(v).value) ==> v.ArrayType?
    decreases Height(v)
  {
    hide LeafName;
    match v
    case VectorType(es) => ShapesAreTypes(es[0], names);
    case FmqSyncType(es) => ShapesAreTypes(es[0], names);
    case FmqUnsyncType(es) => ShapesAreTypes(es[0], names);
    case ArrayType(_, _) =>
      assert ArraySizes(v)[0] == v.size;
      ShapesAreTypes(ArrayBase(v).value, names);
    case RefType(t) => ShapesAreTypes(t, names);
    case CallbackType(predefined) => assert predefined.value in LeafNames(Name(predefined.value));
    case InterfaceType(predefined) => assert predefined.value in LeafNames(Name(predefined.value));
    case _ =>
  }

  function LeafNames(s: Shape): set<string>
    decreases s
  {
    match s.core
    case Leaf(text) => {text}
    case Generic(_, element, _) => LeafNames(element)
  }

  function References(v: VarSpec, n: nat): VarSpec {
    if n == 0 then v else RefType(References(v, n - 1))
  }

  /** Arrays in arrays around an element; at each level further elements may stand behind the first. */
  function Nest(sizes: seq<int>, element: VarSpec, further: seq<seq<VarSpec>>): VarSpec
    requires |further| == |sizes|
  {
    if sizes == [] then element else ArrayType(sizes[0], [Nest(sizes[1..], element, further[1..])] + further[0])
  }

  function NoFurther(n: nat): (further: seq<seq<VarSpec>>)
    ensures |further| == n
  {
    seq(n, _ => [])
  }

  /** A message that describes a type. */
  function MessageOf(s: Shape): VarSpec
    decreases s
  {
    References(
      match s.core
      case Leaf(text) => PredefinedType(text)
      case Generic(Vector, element, _) => VectorType([MessageOf(element)])
      case Generic(SyncQueue, element, _) => FmqSyncType([MessageOf(element)])
      case Generic(UnsyncQueue, element, _) => FmqUnsyncType([MessageOf(element)])
      case Generic(Interface, element, _) => InterfaceType(if element.core.Leaf? then Some(element.core.text) else None)
      case Generic(Array, element, dims) => Nest(dims, MessageOf(element), NoFurther(|dims|)),
      s.refs)
  }

  lemma {:induction false} NestUnwinds(sizes: seq<int>, element: VarSpec, further: seq<seq<VarSpec>>)
    requires !element.ArrayType? && |further| == |sizes|
    ensures var v := Nest(sizes, element, further);
            ArrayBase(v) == Some(element) && ArraySizes(v) == sizes && (sizes != [] ==> v.ArrayType?)
  {
    if sizes != [] {
      NestUnwinds(sizes[1..], element, further[1..]);
      assert [sizes[0]] + sizes[1..] == sizes;
    }
  }

  lemma {:induction false} ReferencesShape(v: VarSpec, n: nat)
    requires ShapeOf(v).Some?
    ensures ShapeOf(References(v, n)) == Some(ShapeOf(v).value.(refs := ShapeOf(v).value.refs + n))
  {
    hide ShapeOf;
    if n > 0 {
      ReferencesShape(v, n - 1);
      OneRef(References(v, n - 1));
    }
  }

  /** Every type is described by some message. */
  lemma {:induction false} MessageDescribes(s: Shape, names: iset<string>)
    requires Over(s, names)
    ensures ShapeOf(MessageOf(s)) == Some(s)
    decreases s
  {
    var bare := MessageOf(s.(refs := 0));
    assert ShapeOf(bare) == Some(s.(refs := 0)) by {
      match s.core
      case Leaf(text) =>
      case Generic(Array, element, dims) =>
        MessageDescribes(element, names);
        ArrayMessage(element, dims, names);
      case Generic(_, element, dims) =>
        MessageDescribes(element, names);
    }
    ReferencesShape(bare, s.refs);
  }

  lemma NotArray(s: Shape)
    requires !BareArray(s)
    ensures !MessageOf(s).ArrayType?
  {
  }

  lemma ArrayMessage(element: Shape, dims: seq<int>, names: iset<string>)
    requires Over(element, names) && dims != [] && !BareArray(element)
    requires ShapeOf(MessageOf(element)) == Some(element)
    ensures ShapeOf(Nest(dims, MessageOf(element), NoFurther(|dims|))) == Some(Shape(Generic(Array, element, dims), 0))
  {
    NotArray(element);
    hide ShapeOf;
    hide MessageOf;
    hide Nest;
    NestShape(dims, MessageOf(element), NoFurther(|dims|));
  }

  /** A message that prints, with all names it prints among `names`. */
  predicate Uses(v: VarSpec, names: iset<string>) {
    ShapeOf(v).Some? && forall t :: t in LeafNames(ShapeOf(v).value) ==> t in names
  }

  /** Messages that print alike describe the same type. */
  ghost predicate PrintsApart(names: iset<string>) {
    forall v: VarSpec, w: VarSpec :: Uses(v, names) && Uses(w, names) && Printed(v, false) == Printed(w, false) ==>
      ShapeOf(v) == ShapeOf(w)
  }

  /** Messages over unambiguous names print alike exactly when they have the same shape. */
  lemma PrintedAlikeIffSameShape(v: VarSpec, w: VarSpec, names: iset<string>)
    requires Uses(v, names) && Uses(w, names) && Unambiguous(names)
    ensures Printed(v, false) == Printed(w, false) <==> ShapeOf(v) == ShapeOf(w)
  {
    hide ShapeOf;
    hide TextOf;
    if Printed(v, false) == Printed(w, false) {
      ShapesAreTypes(v, names);
      ShapesAreTypes(w, names);
      TextDetermines(ShapeOf(v).value, ShapeOf(w).value, names);
    }
  }

  lemma {:induction false} OverUses(s: Shape, names: iset<string>)
    requires Over(s, names)
    ensures forall t :: t in LeafNames(s) ==> t in names
    decreases s
  {
    if s.core.Generic? {
      OverUses(s.core.element, names);
    }
  }

  /** The printed text determines the type of every message over some names if and only if the names are unambiguous. */
  lemma PrintsApartIffUnambiguous(names: iset<string>)
    ensures PrintsApart(names) <==> Unambiguous(names)
  {
    hide ShapeOf;
    hide TextOf;
    hide Unambiguous;
    hide Uses;
    hide Printed;
    if Unambiguous(names) {
      forall v: VarSpec, w: VarSpec | Uses(v, names) && Uses(w, names) && Printed(v, false) == Printed(w, false)
        ensures ShapeOf(v) == ShapeOf(w)
      {
        PrintedAlikeIffSameShape(v, w, names);
      }
    }
    if PrintsApart(names) {
      forall a: Shape, b: Shape | Over(a, names) && Over(b, names) && TextOf(a) == TextOf(b)
        ensures a == b
      {
        TypePrints(a, names);
        TypePrints(b, names);
        assert Printed(MessageOf(a), false) == Printed(MessageOf(b), false);
      }
      InjectiveIffUnambiguous(names);
    }
  }

  lemma TypePrints(s: Shape, names: iset<string>)
    requires Over(s, names)
    ensures ShapeOf(MessageOf(s)) == Some(s) && Uses(MessageOf(s), names)
    ensures Printed(MessageOf(s), false) == Some(TextOf(s))
  {
    hide ShapeOf;
    MessageDescribes(s, names);
    OverUses(s, names);
    PlainPrint(MessageOf(s));
  }

  /** Whatever is printed, with or without const, has balanced brackets. */
  lemma PrintedBalanced(v: VarSpec, generateConst: bool)
    requires ShapeOf(v).Some? && BalancedNames(ShapeOf(v).value)
    ensures Printed(v, generateConst).Some? && Balanced(Printed(v, generateConst).value)
  {
    hide ShapeOf;
    hide TextOf;
    hide DepthAfter;
    var text := TextOf(ShapeOf(v).value);
    TextKeepsDepth(ShapeOf(v).value, 0);
    if generateConst {
      NoBracketKeepsDepth("const ", 0);
      DepthOfConcat("const ", text, 0);
      NoBracketKeepsDepth("&", 0);
      DepthOfConcat("const " + text, "&", 0);
    }
  }

  /** Names with a bracket, a comma or a trailing star can make different types print alike. */
  lemma UncleanNamesCollide()
    ensures var v := VectorType([PredefinedType("T")]);
            var w := PredefinedType("::android::hardware::hidl_vec<T>");
            Printed(v, false) == Printed(w, false) && ShapeOf(v) != ShapeOf(w)
  {
    var v := VectorType([PredefinedType("T")]);
    LeafText("T");
    GenericText(Vector, Shape(Leaf("T"), 0), []);
    LeafText("::android::hardware::hidl_vec<T>");
    assert ShapeOf(PredefinedType("T")) == Some(Shape(Leaf("T"), 0));
    assert ShapeOf(v) == Some(Shape(Generic(Vector, Shape(Leaf("T"), 0), []), 0));
    assert Head(Vector) + "<" + "T" + DimsText([]) + ">" == "::android::hardware::hidl_vec<T>";
  }
}
