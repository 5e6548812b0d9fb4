/**
  The text of C++ types for interface variables, as a code over shapes: what is printed
  determines the shape.
 */
module CppTypeText {
  import opened Text
  import opened Tokens

  /** A printed type: a core followed by one " const*" for every reference around it. */
  datatype Shape = Shape(core: Core, refs: nat)

  /** A name, or a template applied to a type; only arrays carry dimensions, outermost first. */
  datatype Core = Leaf(text: string) | Generic(kind: Kind, element: Shape, dims: seq<int>)

  datatype Kind = Interface | Vector | Array | SyncQueue | UnsyncQueue

  const STAR: string := " const*"

  function Stars(n: nat): string {
    if n == 0 then "" else STAR + Stars(n - 1)
  }

  const HARDWARE: string := "::android::hardware::"

  /** What stands before the opening bracket. */
  function Head(k: Kind): string {
    match k
    case Interface => "sp"
    case Vector => HARDWARE + "hidl_vec"
    case Array => HARDWARE + "hidl_array"
    case SyncQueue => HARDWARE + "MQDescriptorSync"
    case UnsyncQueue => HARDWARE + "MQDescriptorUnsync"
  }

  function DimsText(dims: seq<int>): string {
    if dims == [] then "" else ", " + SignedDecimal(dims[0]) + DimsText(dims[1..])
  }

  /** What stands between the brackets of a template. */
  function ArgsText(element: Shape, dims: seq<int>): string
    decreases element, 1
  {
    TextOf(element) + DimsText(dims)
  }

  function CoreText(core: Core): string
    decreases core
  {
    match core
    case Leaf(text) => text
    case Generic(kind, element, dims) => Head(kind) + "<" + ArgsText(element, dims) + ">"
  }

  function TextOf(s: Shape): string
    decreases s, 0
  {
    CoreText(s.core) + Stars(s.refs)
  }

  /** No bracket and no comma. */
  predicate Plain(s: string) {
    forall i :: 0 <= i < |s| ==> !IsMark(s[i])
  }

  predicate IsMark(c: char) {
    c == '<' || c == '>' || c == ','
  }

  lemma HeadPlain(k: Kind)
    ensures Plain(Head(k))
    ensures |Head(k)| == match k
                         case Interface => 2
                         case Vector => 29
                         case Array => 31
                         case SyncQueue => 37
                         case UnsyncQueue => 39
  {
    assert Plain(HARDWARE) && |HARDWARE| == 21;
    assert Plain("hidl_array") && Plain("hidl_vec");
    assert Plain("MQDescriptorSync") && Plain("MQDescriptorUnsync");
  }

  lemma {:induction false} StarsPlain(n: nat)
    ensures Plain(Stars(n))
  {
    if n > 0 {
      StarsPlain(n - 1);
    }
  }

  // ---- Balanced brackets -----------------------------------------------------------------------

  function Deeper(c: char, depth: int): int {
    if c == '<' then depth + 1 else if c == '>' then depth - 1 else depth
  }

  /** Bracket depth after `s` when it starts at `depth`; negative once a bracket closes too many. */
  function DepthAfter(s: string, depth: int): int {
    if s == "" || depth < 0 then depth else DepthAfter(s[1..], Deeper(s[0], depth))
  }

  /** Brackets open and close in step. */
  predicate Balanced(s: string) {
    DepthAfter(s, 0) == 0
  }

  lemma {:induction false} DepthOfConcat(s: string, t: string, depth: int)
    ensures DepthAfter(s + t, depth) == DepthAfter(t, DepthAfter(s, depth))
    decreases |s|
  {
    if s == "" {
      assert s + t == t;
    } else if depth >= 0 {
      assert (s + t)[1..] == s[1..] + t;
      DepthOfConcat(s[1..], t, Deeper(s[0], depth));
    }
  }

  lemma {:induction false} DepthShift(s: string, depth: nat, up: nat)
    requires DepthAfter(s, depth) >= 0
    ensures DepthAfter(s, depth + up) == DepthAfter(s, depth) + up
    decreases |s|
  {
    if s != "" {
      DepthShift(s[1..], Deeper(s[0], depth), up);
    }
  }

  predicate NoBracket(s: string) {
    forall i :: 0 <= i < |s| ==> s[i] != '<' && s[i] != '>'
  }

  lemma {:induction false} NoBracketKeepsDepth(s: string, depth: nat)
    requires NoBracket(s)
    ensures DepthAfter(s, depth) == depth
    decreases |s|
  {
    if s != "" {
      NoBracketKeepsDepth(s[1..], depth);
    }
  }

  lemma {:induction false} DimsNoBracket(dims: seq<int>)
    ensures NoBracket(DimsText(dims))
  {
    if dims != [] {
      DimsNoBracket(dims[1..]);
    }
  }

  /** Every name in the type has balanced brackets of its own. */
  predicate BalancedNames(s: Shape)
    decreases s
  {
    match s.core
    case Leaf(text) => Balanced(text)
    case Generic(_, element, _) => BalancedNames(element)
  }

  /** A printed type keeps the bracket depth at which it starts; in particular it is balanced. */
  lemma {:induction false} TextKeepsDepth(s: Shape, depth: nat)
    requires BalancedNames(s)
    ensures DepthAfter(TextOf(s), depth) == depth
    decreases s
  {
    hide DepthAfter;
    hide ArgsText;
    StarsPlain(s.refs);
    NoBracketKeepsDepth(Stars(s.refs), depth);
    DepthOfConcat(CoreText(s.core), Stars(s.refs), depth);
    match s.core
    case Leaf(text) =>
      DepthShift(text, 0, depth);
    case Generic(kind, element, dims) =>
      TextKeepsDepth(element, depth + 1);
      ArgsKeepDepth(element, dims, depth + 1);
      var a := Head(kind) + "<";
      OpenBracket(Head(kind), depth, kind);
      DepthOfConcat(a, ArgsText(element, dims), depth);
      CloseBracket(depth);
      DepthOfConcat(a + ArgsText(element, dims), ">", depth);
  }

  lemma ArgsKeepDepth(element: Shape, dims: seq<int>, depth: nat)
    requires DepthAfter(TextOf(element), depth) == depth
    ensures DepthAfter(ArgsText(element, dims), depth) == depth
  {
    DimsNoBracket(dims);
    NoBracketKeepsDepth(DimsText(dims), depth);
    DepthOfConcat(TextOf(element), DimsText(dims), depth);
  }

  lemma OpenBracket(h: string, depth: nat, kind: Kind)
    requires h == Head(kind)
    ensures DepthAfter(h + "<", depth) == depth + 1
  {
    HeadPlain(kind);
    NoBracketKeepsDepth(h, depth);
    DepthOfConcat(h, "<", depth);
    assert DepthAfter("<", depth) == depth + 1;
  }

  lemma CloseBracket(depth: nat)
    ensures DepthAfter(">", depth + 1) == depth
  {
  }

  // ---- When the text determines the shape -----------------------------------------------------------

  /** An array that is not behind a reference. */
  predicate BareArray(s: Shape) {
    s.refs == 0 && s.core.Generic? && s.core.kind == Array
  }

  /** Arguments that can stand together: arrays directly in arrays are one array with more dimensions. */
  predicate Fits(element: Shape, dims: seq<int>) {
    dims == [] || !BareArray(element)
  }

  /** A type as messages describe them, with all its names among `names`. */
  predicate Over(s: Shape, names: iset<string>)
    decreases s
  {
    match s.core
    case Leaf(text) => text in names
    case Generic(kind, element, dims) =>
      && Over(element, names) && Fits(element, dims)
      && (kind == Array <==> dims != [])
      && (kind == Interface ==> element.core.Leaf? && element.refs == 0)
  }

  function Name(text: string): Shape {
    Shape(Leaf(text), 0)
  }

  /** No name reads like a larger type, or like a type followed by dimensions. */
  ghost predicate Unambiguous(names: iset<string>) {
    forall e: Shape, d: seq<int> :: Over(e, names) && Fits(e, d) && ArgsText(e, d) in names ==>
      e == Name(ArgsText(e, d)) && d == []
  }

  /** The last character of a printed type, which tells how to read it from the right. */
  lemma LastOfText(s: Shape)
    ensures s.refs > 0 ==> TextOf(s) == TextOf(s.(refs := s.refs - 1)) + STAR
    ensures s.refs == 0 ==> TextOf(s) == CoreText(s.core)
    ensures s.refs > 0 ==> TextOf(s) != "" && TextOf(s)[|TextOf(s)| - 1] == '*'
    ensures s.refs == 0 && s.core.Generic? ==> TextOf(s) != "" && TextOf(s)[|TextOf(s)| - 1] == '>'
  {
    hide CoreText;
    var core := CoreText(s.core);
    if s.refs > 0 {
      StarsLast(s.refs);
      Associate(core, Stars(s.refs - 1), STAR);
    } else {
      assert core + "" == core;
      LastOfCore(s.core);
    }
  }

  lemma LastOfCore(core: Core)
    ensures core.Generic? ==> CoreText(core) != "" && CoreText(core)[|CoreText(core)| - 1] == '>'
  {
  }

  lemma Associate(x: string, y: string, z: string)
    ensures x + (y + z) == (x + y) + z
  {
  }

  lemma {:induction false} StarsLast(n: nat)
    requires n > 0
    ensures Stars(n) == Stars(n - 1) + STAR
  {
    if n == 1 {
      assert STAR + "" == "" + STAR;
    } else {
      StarsLast(n - 1);
      Associate(STAR, Stars(n - 2), STAR);
    }
  }

  lemma {:induction false} DimsTextConcat(d: seq<int>, e: seq<int>)
    ensures DimsText(d + e) == DimsText(d) + DimsText(e)
  {
    if d == [] {
      assert d + e == e;
    } else {
      assert (d + e)[1..] == d[1..] + e;
      DimsTextConcat(d[1..], e);
      Associate(", " + SignedDecimal(d[0]), DimsText(d[1..]), DimsText(e));
    }
  }

  function Front(d: seq<int>): seq<int>
    requires d != []
  {
    d[..|d| - 1]
  }

  /** Arguments with dimensions end in a comma, a space and the last dimension. */
  lemma LastDim(e: Shape, d: seq<int>)
    requires d != []
    ensures ArgsText(e, d) == (ArgsText(e, Front(d)) + ",") + " " + SignedDecimal(d[|d| - 1])
  {
    hide TextOf;
    hide SignedDecimal;
    var n := SignedDecimal(d[|d| - 1]);
    assert d == Front(d) + [d[|d| - 1]];
    DimsTextConcat(Front(d), [d[|d| - 1]]);
    assert DimsText([d[|d| - 1]]) == ", " + n + "";
    Associate(TextOf(e), DimsText(Front(d)), ", " + n);
    LastDimText(ArgsText(e, Front(d)), n);
  }

  lemma LastDimText(x: string, n: string)
    ensures x + (", " + n + "") == (x + ",") + " " + n
  {
  }

  /** The part behind the last space is determined by the whole. */
  lemma LastSpace(p: string, x: string, q: string, y: string)
    requires ' ' !in x && ' ' !in y && p + " " + x == q + " " + y
    ensures p == q && x == y
  {
    var s := p + " " + x;
    assert forall i :: |p| < i < |s| ==> s[i] == x[i - |p| - 1];
    assert forall i :: |q| < i < |s| ==> s[i] == y[i - |q| - 1];
    assert s[|p|] == ' ' && s[|q|] == ' ';
    assert s[..|p|] == p && s[..|q|] == q;
    assert s[|p| + 1..] == x && s[|q| + 1..] == y;
  }

  lemma LastDimThen(e: Shape, d: seq<int>, f: Shape, g: seq<int>)
    requires d != [] && g != [] && ArgsText(e, d) == ArgsText(f, g)
    ensures ArgsText(e, Front(d)) == ArgsText(f, Front(g)) && d[|d| - 1] == g[|g| - 1]
    ensures |ArgsText(e, Front(d))| < |ArgsText(e, d)|
  {
    hide ArgsText;
    LastDim(e, d);
    LastDim(f, g);
    var x, y := SignedDecimal(d[|d| - 1]), SignedDecimal(g[|g| - 1]);
    var p, q := ArgsText(e, Front(d)), ArgsText(f, Front(g));
    assert ' ' !in x && ' ' !in y by { assert !IsDigit(' '); }
    LastSpace(p + ",", x, q + ",", y);
    assert p == (p + ",")[..|p|] && q == (q + ",")[..|q|];
    SignedDecimalInjective(d[|d| - 1], g[|g| - 1]);
  }

  /** Where one side has dimensions and the other none, the other is a name. */
  lemma NoDimsIsName(e: Shape, f: Shape, g: seq<int>)
    requires g != [] && TextOf(e) == ArgsText(f, g)
    ensures e.refs == 0 && e.core.Leaf?
  {
    hide TextOf;
    hide ArgsText;
    LastOfText(e);
    LastDim(f, g);
    var n := SignedDecimal(g[|g| - 1]);
    var text := (ArgsText(f, Front(g)) + ",") + " " + n;
    assert text[|text| - 1] == n[|n| - 1];
  }

  lemma NoDims(e: Shape)
    ensures ArgsText(e, []) == TextOf(e)
  {
    assert TextOf(e) + "" == TextOf(e);
  }

  /** The part before the first mark is determined by the whole. */
  lemma FirstMark(p: string, x: string, q: string, y: string)
    requires Plain(p) && Plain(q) && x != "" && y != "" && IsMark(x[0]) && IsMark(y[0])
    requires p + x == q + y
    ensures p == q && x == y
  {
    var s := p + x;
    assert forall i :: 0 <= i < |q| ==> s[i] == q[i];
    assert forall i :: 0 <= i < |p| ==> s[i] == p[i];
    assert s[|p|] == x[0] && s[|q|] == y[0];
    assert s[..|p|] == p && s[..|q|] == q;
    assert s[|p|..] == x && s[|q|..] == y;
  }

  lemma Bracketed(h: string, args: string)
    ensures h + "<" + args + ">" == h + ("<" + args + ">")
  {
  }

  lemma SameBracketed(x: string, y: string)
    requires "<" + x + ">" == "<" + y + ">"
    ensures x == y
  {
    assert ("<" + x + ">")[1..|x| + 1] == x && ("<" + y + ">")[1..|y| + 1] == y;
  }

  /** Equal templates have equal heads and equal arguments. */
  lemma GenericThen(a: Core, b: Core)
    requires a.Generic? && b.Generic? && CoreText(a) == CoreText(b)
    ensures a.kind == b.kind
    ensures ArgsText(a.element, a.dims) == ArgsText(b.element, b.dims)
    ensures |ArgsText(a.element, a.dims)| < |CoreText(a)|
  {
    hide ArgsText;
    var x, y := ArgsText(a.element, a.dims), ArgsText(b.element, b.dims);
    HeadPlain(a.kind);
    HeadPlain(b.kind);
    Bracketed(Head(a.kind), x);
    Bracketed(Head(b.kind), y);
    FirstMark(Head(a.kind), "<" + x + ">", Head(b.kind), "<" + y + ">");
    SameBracketed(x, y);
  }

  /** One star less on both sides. */
  lemma StarThen(a: Shape, b: Shape)
    requires a.refs > 0 && b.refs > 0 && TextOf(a) == TextOf(b)
    ensures TextOf(a.(refs := a.refs - 1)) == TextOf(b.(refs := b.refs - 1))
    ensures |TextOf(a.(refs := a.refs - 1))| < |TextOf(a)|
  {
    LastOfText(a);
    LastOfText(b);
    hide TextOf;
    var x, y := TextOf(a.(refs := a.refs - 1)), TextOf(b.(refs := b.refs - 1));
    assert x == (x + STAR)[..|x|] && y == (y + STAR)[..|y|];
  }

  /** A name that prints like a type is that type. */
  lemma NameOnly(t: string, e: Shape, names: iset<string>)
    requires Unambiguous(names) && t in names && Over(e, names) && TextOf(e) == t
    ensures e == Name(t)
  {
    hide TextOf;
    NoDims(e);
  }

  lemma NameText(t: string)
    ensures TextOf(Name(t)) == t
  {
    assert t + "" == t;
  }

  /** Over unambiguous names, reading a type or the arguments of a template from the right leaves no choice. */
  lemma {:induction false} ArgsDetermine(e: Shape, d: seq<int>, f: Shape, g: seq<int>, names: iset<string>)
    requires Unambiguous(names) && Over(e, names) && Over(f, names) && Fits(e, d) && Fits(f, g)
    requires ArgsText(e, d) == ArgsText(f, g)
    ensures e == f && d == g
    decreases |ArgsText(e, d)|, 1
  {
    hide Unambiguous;
    hide ArgsText;
    hide TextOf;
    NoDims(e);
    NoDims(f);
    if d != [] && g != [] {
      LastDimThen(e, d, f, g);
      ArgsDetermine(e, Front(d), f, Front(g), names);
      assert d == Front(d) + [d[|d| - 1]] && g == Front(g) + [g[|g| - 1]];
    } else if d == [] && g == [] {
      TextDetermines(e, f, names);
    } else {
      MixedDims(e, d, f, g, names);
    }
  }

  lemma MixedDims(e: Shape, d: seq<int>, f: Shape, g: seq<int>, names: iset<string>)
    requires Unambiguous(names) && Over(e, names) && Over(f, names) && Fits(e, d) && Fits(f, g)
    requires (d == []) != (g == [])
    ensures ArgsText(e, d) != ArgsText(f, g)
  {
    hide ArgsText;
    hide TextOf;
    if ArgsText(e, d) == ArgsText(f, g) {
      if d == [] {
        NoDims(e);
        NoDimsIsName(e, f, g);
        NameText(e.core.text);
      } else {
        NoDims(f);
        NoDimsIsName(f, e, d);
        NameText(f.core.text);
      }
      assert false;
    }
  }

  lemma {:induction false} TextDetermines(a: Shape, b: Shape, names: iset<string>)
    requires Unambiguous(names) && Over(a, names) && Over(b, names) && TextOf(a) == TextOf(b)
    ensures a == b
    decreases |TextOf(a)|, 0
  {
    hide Unambiguous;
    hide ArgsText;
    hide TextOf;
    hide CoreText;
    LastOfText(a);
    LastOfText(b);
    if a.refs > 0 && b.refs > 0 {
      StarThen(a, b);
      TextDetermines(a.(refs := a.refs - 1), b.(refs := b.refs - 1), names);
    } else if a.refs == 0 && a.core.Leaf? {
      NameText(a.core.text);
      NameOnly(a.core.text, b, names);
    } else if b.refs == 0 && b.core.Leaf? {
      NameText(b.core.text);
      NameOnly(b.core.text, a, names);
    } else {
      GenericThen(a.core, b.core);
      ArgsDetermine(a.core.element, a.core.dims, b.core.element, b.core.dims, names);
    }
  }

  /** Cut at its commas, the text of dimensions has one part per dimension, which reads as its number. */
  lemma {:induction false} DimsReadBack(dims: seq<int>)
    ensures var parts := Split(DimsText(dims), ',');
            && |parts| == 1 + |dims| && parts[0] == ""
            && forall i :: 0 <= i < |dims| ==> Atoi(parts[1 + i]) == dims[i]
    decreases |dims|
  {
    hide Atoi;
    hide SignedDecimal;
    if dims != [] {
      var first, rest := " " + SignedDecimal(dims[0]), DimsText(dims[1..]);
      DimsReadBack(dims[1..]);
      AtoiOfSigned(dims[0]);
      NoComma(dims[0]);
      assert DimsText(dims) == "" + [','] + (first + rest);
      SplitAtFirst("", ',', first + rest);
      SplitBehind(first, rest);
      assert Split(DimsText(dims), ',') == [""] + ([first] + Split(rest, ',')[1..]);
      forall i | 0 <= i < |dims|
        ensures Atoi(Split(DimsText(dims), ',')[1 + i]) == dims[i]
      {
        if i > 0 {
          assert Atoi(Split(rest, ',')[i]) == dims[1..][i - 1];
        }
      }
    } else {
      SplitPlain("", ',');
    }
  }

  lemma NoComma(n: int)
    ensures ',' !in " " + SignedDecimal(n)
  {
    assert !IsDigit(',');
  }

  lemma {:induction false} SplitBehind(p: string, s: string)
    requires ',' !in p && Split(s, ',')[0] == ""
    ensures Split(p + s, ',') == [p] + Split(s, ',')[1..]
    decreases |p|
  {
    if p == "" {
      assert p + s == s;
    } else {
      assert (p + s)[0] == p[0] && (p + s)[1..] == p[1..] + s;
      SplitBehind(p[1..], s);
      assert [p[0]] + p[1..] == p;
    }
  }

  /** Different types over the names print differently. */
  ghost predicate Injective(names: iset<string>) {
    forall a: Shape, b: Shape :: Over(a, names) && Over(b, names) && TextOf(a) == TextOf(b) ==> a == b
  }

  /** The text determines the shape, for all types over some names, if and only if the names are unambiguous. */
  lemma InjectiveIffUnambiguous(names: iset<string>)
    ensures Injective(names) <==> Unambiguous(names)
  {
    hide TextOf;
    hide ArgsText;
    if Unambiguous(names) {
      forall a: Shape, b: Shape | Over(a, names) && Over(b, names) && TextOf(a) == TextOf(b)
        ensures a == b
      {
        TextDetermines(a, b, names);
      }
    }
    if Injective(names) {
      forall e: Shape, d: seq<int> | Over(e, names) && Fits(e, d) && ArgsText(e, d) in names
        ensures e == Name(ArgsText(e, d)) && d == []
      {
        var t := ArgsText(e, d);
        if d == [] {
          NoDims(e);
          NameText(t);
          assert Over(Name(t), names);
        } else {
          AmbiguousCollides(e, d, names);
        }
      }
    }
  }

  /** A name that reads like a type with dimensions makes two array types print alike. */
  lemma AmbiguousCollides(e: Shape, d: seq<int>, names: iset<string>)
    requires Over(e, names) && Fits(e, d) && d != [] && ArgsText(e, d) in names
    ensures !Injective(names)
  {
    hide TextOf;
    var t := ArgsText(e, d);
    var a, b := Shape(Generic(Array, Name(t), [0]), 0), Shape(Generic(Array, e, d + [0]), 0);
    NameText(t);
    DimsTextConcat(d, [0]);
    Associate(TextOf(e), DimsText(d), DimsText([0]));
    assert ArgsText(Name(t), [0]) == ArgsText(e, d + [0]);
    LastOfText(a);
    LastOfText(b);
    assert |a.core.dims| != |b.core.dims|;
    assert Over(a, names) && Over(b, names) && TextOf(a) == TextOf(b);
  }

  predicate EndsInStar(t: string) {
    |t| >= |STAR| && t[|t| - |STAR|..] == STAR
  }

  /** Free of brackets and commas, and not ending like a reference. */
  predicate Clean(name: string) {
    Plain(name) && !EndsInStar(name)
  }

  lemma DimsUnclean(e: Shape, d: seq<int>)
    requires d != []
    ensures !Clean(ArgsText(e, d))
  {
    hide ArgsText;
    LastDim(e, d);
    var t, k := ArgsText(e, d), |ArgsText(e, Front(d))|;
    assert t[k] == ',' && IsMark(t[k]);
  }

  lemma CompoundUnclean(e: Shape)
    requires e.refs > 0 || e.core.Generic?
    ensures !Clean(TextOf(e))
  {
    hide TextOf;
    LastOfText(e);
    var t := TextOf(e);
    if e.refs > 0 {
      assert t[|t| - |STAR|..] == STAR;
    } else {
      assert IsMark(t[|t| - 1]);
    }
  }

  /** Clean names are unambiguous, whatever names they are. */
  lemma CleanNamesUnambiguous(names: iset<string>)
    requires forall t :: t in names ==> Clean(t)
    ensures Unambiguous(names)
  {
    hide ArgsText;
    hide TextOf;
    hide Clean;
    forall e: Shape, d: seq<int> | Over(e, names) && Fits(e, d) && ArgsText(e, d) in names
      ensures e == Name(ArgsText(e, d)) && d == []
    {
      if d != [] {
        DimsUnclean(e, d);
      } else {
        NoDims(e);
        if e.refs > 0 || e.core.Generic? {
          CompoundUnclean(e);
        } else {
          NameText(e.core.text);
        }
      }
    }
  }
}
