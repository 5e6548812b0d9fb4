/**
  From the name of a HAL type to the path of the library that translates it: the package
  components before the first version component, joined by dots, and the version.
 */
module LibraryPath {
  import opened Options
  import opened Text
  import opened Tokens

  const BASE: string := "/data/local/tmp/64/"
  const SUFFIX: string := "-vts.driver.so"

  // ---- Components of a name -----------------------------------------------------------------------------

  /** A double colon starts at `i`. */
  predicate ColonsAt(s: string, i: nat) {
    i + 1 < |s| && s[i] == ':' && s[i + 1] == ':'
  }

  /** First double colon at or behind `from`. */
  function FindColons(s: string, from: nat): (r: Option<nat>)
    ensures r.Some? ==> from <= r.value && ColonsAt(s, r.value)
    ensures forall i :: from <= i && (r.Some? ==> i < r.value) ==> !ColonsAt(s, i)
    decreases if from < |s| then |s| - from else 0
  {
    if from + 1 >= |s| then None
    else if ColonsAt(s, from) then Some(from)
    else FindColons(s, from + 1)
  }

  /** The components that a double colon ends, from position `from` on. */
  function Components(s: string, from: nat): seq<string>
    requires from <= |s|
    decreases |s| - from
  {
    match FindColons(s, from)
    case None => []
    case Some(k) => [s[from..k]] + Components(s, k + 2)
  }

  predicate Digits(s: string) {
    s != "" && forall i :: 0 <= i < |s| ==> IsDigit(s[i])
  }

  /** The expression V[0-9]+_[0-9]+ on a whole component. */
  predicate IsVersion(p: string) {
    && p != "" && p[0] == 'V'
    && var parts := Split(p[1..], '_');
       |parts| == 2 && Digits(parts[0]) && Digits(parts[1])
  }

  // ---- The path a list of components stands for -----------------------------------------------------------

  /** Non-empty components before the first version. */
  function Package(components: seq<string>): seq<string> {
    if components == [] || IsVersion(components[0]) then []
    else (if components[0] == "" then [] else [components[0]]) + Package(components[1..])
  }

  /** The first version. */
  function Version(components: seq<string>): Option<string> {
    if components == [] then None
    else if IsVersion(components[0]) then Some(components[0])
    else Version(components[1..])
  }

  function Dotted(package: seq<string>): string {
    if package == [] then "" else package[0] + "." + Dotted(package[1..])
  }

  /** The last character of the path so far makes way for the version. */
  function WithVersion(path: string, version: string): string
    requires path != "" && IsVersion(version)
  {
    path[..|path| - 1] + "@" + Join(Split(version[1..], '_'), '.')
  }

  function PathOf(components: seq<string>): Option<string> {
    match Version(components)
    case None => None
    case Some(v) =>
      VersionIsVersion(components);
      Some(WithVersion(BASE + Dotted(Package(components)), v) + SUFFIX)
  }

  lemma {:induction false} VersionIsVersion(components: seq<string>)
    ensures Version(components).Some? ==> IsVersion(Version(components).value)
  {
    if components != [] && !IsVersion(components[0]) {
      VersionIsVersion(components[1..]);
    }
  }

  /** Loading fails exactly when no component ended by a double colon is a version. */
  lemma {:induction false} FailsIffNoVersion(components: seq<string>)
    ensures PathOf(components) == None <==> forall i :: 0 <= i < |components| ==> !IsVersion(components[i])
  {
    if components != [] && !IsVersion(components[0]) {
      FailsIffNoVersion(components[1..]);
      assert forall i :: 0 < i < |components| ==> components[i] == components[1..][i - 1];
    }
  }

  // ---- The scan -----------------------------------------------------------------------------------------

  /** The library path for a type name, or none. */
  method SharedLibPath(dataType: string) returns (r: Option<string>)
    ensures r == PathOf(Components(dataType, 0))
  {
    hide IsVersion;
    hide FindColons;
    hide Package;
    hide Dotted;
    var path := BASE;
    var index: nat := 0;
    ghost var all := Components(dataType, 0);
    assert Dotted(Package(all)) == "" + Dotted(Package(all));
    ghost var seen := "";
    while true
      invariant index <= |dataType|
      invariant path == BASE + seen
      invariant Version(all) == Version(Components(dataType, index))
      invariant Dotted(Package(all)) == seen + Dotted(Package(Components(dataType, index)))
      decreases |dataType| - index
    {
      var next := FindColons(dataType, index);
      ghost var left := Components(dataType, index);
      if next == None { return None; }
      ghost var rest := Components(dataType, next.value + 2);
      var current := dataType[index..next.value];
      assert left[0] == current && left[1..] == rest;
      if index == next.value {
        EmptyComponent(left);
        index := next.value + 2;
        continue;
      }
      if IsVersion(current) {
        path := ReplaceVersion(path, current);
        AtVersion(left);
        assert seen + "" == seen;
        return Some(path + SUFFIX);
      }
      PlainComponent(left);
      SeenExtends(seen, current, Dotted(Package(rest)));
      path := path + (current + ".");
      seen := seen + (current + ".");
      index := next.value + 2;
    }
  }

  lemma SeenExtends(seen: string, current: string, rest: string)
    ensures (seen + (current + ".")) + rest == seen + (current + "." + rest)
  {
  }

  lemma AtVersion(cs: seq<string>)
    requires cs != [] && IsVersion(cs[0])
    ensures Version(cs) == Some(cs[0]) && Dotted(Package(cs)) == ""
  {
  }

  lemma EmptyComponent(cs: seq<string>)
    requires cs != [] && cs[0] == ""
    ensures Version(cs) == Version(cs[1..]) && Package(cs) == Package(cs[1..])
  {
    assert [] + Package(cs[1..]) == Package(cs[1..]);
  }

  lemma PlainComponent(cs: seq<string>)
    requires cs != [] && cs[0] != "" && !IsVersion(cs[0])
    ensures Version(cs) == Version(cs[1..])
    ensures Dotted(Package(cs)) == cs[0] + "." + Dotted(Package(cs[1..]))
  {
    assert Package(cs)[1..] == Package(cs[1..]);
  }

  /** Puts '@' over the last character and appends the version with a dot for its underscore. */
  method ReplaceVersion(path: string, version: string) returns (r: string)
    requires path != "" && IsVersion(version)
    ensures r == WithVersion(path, version)
  {
    ghost var parts := Split(version[1..], '_');
    VersionParts(version);
    ghost var a, b := parts[0], parts[1];
    var separator := 0;
    while version[separator] != '_'
      invariant separator <= 1 + |a|
      decreases |version| - separator
    {
      separator := separator + 1;
    }
    assert separator == 1 + |a|;
    var dotted := version[separator := '.'];
    assert dotted[1..] == a + "." + b;
    r := path[|path| - 1 := '@'] + dotted[1..];
    assert parts == [a, b] && Join([a, b], '.') == a + ['.'] + b;
    assert path[|path| - 1 := '@'] == path[..|path| - 1] + "@";
  }

  /** A version is V, digits, an underscore, digits. */
  lemma VersionParts(version: string)
    requires IsVersion(version)
    ensures var parts := Split(version[1..], '_');
            version == "V" + parts[0] + "_" + parts[1] && '_' !in parts[0] && '_' !in parts[1]
  {
    var parts := Split(version[1..], '_');
    JoinOfSplit(version[1..], '_');
    SplitFreeOfSeparator(version[1..], '_');
    assert Join(parts, '_') == parts[0] + ['_'] + parts[1];
    assert version == "V" + version[1..];
  }

  lemma PartsMakeVersion(a: string, b: string)
    requires Digits(a) && Digits(b)
    ensures IsVersion("V" + a + "_" + b) && Split(("V" + a + "_" + b)[1..], '_') == [a, b]
    ensures ':' !in "V" + a + "_" + b
  {
    assert ("V" + a + "_" + b)[1..] == a + ['_'] + b;
    assert '_' !in a && '_' !in b && ':' !in a && ':' !in b by {
      assert !IsDigit('_') && !IsDigit(':');
    }
    SplitAtFirst(a, '_', b);
    SplitPlain(b, '_');
    assert [a] + [b] == [a, b];
  }

  // ---- Names built from packages and versions -----------------------------------------------------------

  /** Package components as they occur in type names. */
  predicate PackageComponent(p: string) {
    p != "" && ':' !in p && !IsVersion(p)
  }

  /** Components, each ended by a double colon. */
  function Qualified(package: seq<string>): string {
    if package == [] then "" else package[0] + "::" + Qualified(package[1..])
  }

  function TypeName(package: seq<string>, a: string, b: string, tail: string): string {
    Qualified(package) + "V" + a + "_" + b + "::" + tail
  }

  /** Scanning past a component without colons. */
  lemma ComponentThen(s: string, from: nat, p: string, rest: string)
    requires from <= |s| && s[from..] == p + "::" + rest && ':' !in p
    ensures Components(s, from) == [p] + Components(s, from + |p| + 2)
    ensures from + |p| + 2 <= |s| && s[from + |p| + 2..] == rest
  {
    hide FindColons;
    var k := from + |p|;
    assert forall i :: from <= i < |s| ==> s[i] == (p + "::" + rest)[i - from];
    assert ColonsAt(s, k);
    forall i | from <= i < k
      ensures !ColonsAt(s, i)
    {
      assert s[i] == p[i - from] && s[i] != ':';
    }
    var r := FindColons(s, from);
    assert r == Some(k);
    assert s[from..k] == p;
    assert s[k + 2..] == rest;
  }

  lemma NameSplit(package: seq<string>, a: string, b: string, tail: string)
    ensures TypeName(package, a, b, tail) ==
            if package == [] then "V" + a + "_" + b + "::" + tail
            else package[0] + "::" + TypeName(package[1..], a, b, tail)
  {
  }

  /** The components of a built name start with the package and the version. */
  lemma {:induction false} ComponentsOfName(s: string, from: nat, package: seq<string>, a: string, b: string,
                                            tail: string)
    requires Digits(a) && Digits(b) && forall i :: 0 <= i < |package| ==> PackageComponent(package[i])
    requires from <= |s| && s[from..] == TypeName(package, a, b, tail)
    ensures Package(Components(s, from)) == package
    ensures Version(Components(s, from)) == Some("V" + a + "_" + b)
    decreases |package|
  {
    hide IsVersion;
    hide Components;
    hide TypeName;
    var version := "V" + a + "_" + b;
    PartsMakeVersion(a, b);
    NameSplit(package, a, b, tail);
    if package == [] {
      ComponentThen(s, from, version, tail);
    } else {
      var rest := TypeName(package[1..], a, b, tail);
      assert PackageComponent(package[0]);
      ComponentThen(s, from, package[0], rest);
      ComponentsOfName(s, from + |package[0]| + 2, package[1..], a, b, tail);
      var cs := Components(s, from);
      assert cs[0] == package[0] && cs[1..] == Components(s, from + |package[0]| + 2);
      assert [package[0]] + package[1..] == package;
    }
  }

  lemma {:induction false} DottedIsJoin(package: seq<string>)
    requires package != []
    ensures Dotted(package) == Join(package, '.') + "."
  {
    if |package| > 1 {
      DottedIsJoin(package[1..]);
    } else {
      assert package[0] + "." + "" == package[0] + ".";
    }
  }

  /** The path of a package and a version. */
  function Path(package: seq<string>, a: string, b: string): string
    requires package != []
  {
    BASE + Join(package, '.') + "@" + a + "." + b + SUFFIX
  }

  /** The scan finds the library of every well-formed type name, with or without a leading double colon. */
  lemma ScanFindsLibrary(package: seq<string>, a: string, b: string, tail: string, leading: bool)
    requires package != [] && Digits(a) && Digits(b)
    requires forall i :: 0 <= i < |package| ==> PackageComponent(package[i])
    ensures var name := (if leading then "::" else "") + TypeName(package, a, b, tail);
            PathOf(Components(name, 0)) == Some(Path(package, a, b))
  {
    var plain := TypeName(package, a, b, tail);
    var name := (if leading then "::" else "") + plain;
    if leading {
      assert name[0..] == "" + "::" + plain;
      ComponentThen(name, 0, "", plain);
      ComponentsOfName(name, 2, package, a, b, tail);
      EmptyComponent(Components(name, 0));
      assert Components(name, 0)[1..] == Components(name, 2);
    } else {
      assert name[0..] == plain;
      ComponentsOfName(name, 0, package, a, b, tail);
    }
    PathText(package, a, b);
  }

  lemma PathText(package: seq<string>, a: string, b: string)
    requires package != [] && Digits(a) && Digits(b)
    ensures IsVersion("V" + a + "_" + b)
    ensures WithVersion(BASE + Dotted(package), "V" + a + "_" + b) + SUFFIX == Path(package, a, b)
  {
    PartsMakeVersion(a, b);
    DottedIsJoin(package);
    var path := BASE + Dotted(package);
    assert path[..|path| - 1] == BASE + Join(package, '.');
    assert Join([a, b], '.') == a + ['.'] + b;
    assert (BASE + Join(package, '.')) + "@" + (a + ['.'] + b) + SUFFIX == Path(package, a, b);
  }

  /** The path of a known library, written out. */
  lemma KnownPath()
    ensures Path(["android", "hardware", "tests"], "1", "0")
         == "/data/local/tmp/64/" + "android.hardware.tests" + "@" + "1" + "." + "0" + "-vts.driver.so"
  {
    assert ["android", "hardware", "tests"][1..] == ["hardware", "tests"] && ["hardware", "tests"][1..] == ["tests"];
    assert Join(["hardware", "tests"], '.') == "hardware" + ['.'] + "tests" == "hardware.tests";
    assert Join(["android", "hardware", "tests"], '.') == "android" + ['.'] + "hardware.tests";
  }

  /** Empty components, as between four colons, change nothing wherever they stand. */
  lemma {:induction false} EmptiesIgnored(p: seq<string>, q: seq<string>)
    ensures Package(p + [""] + q) == Package(p + q) && Version(p + [""] + q) == Version(p + q)
    ensures PathOf(p + [""] + q) == PathOf(p + q)
  {
    hide IsVersion;
    EmptyIsNoVersion();
    if p == [] {
      assert p + [""] + q == [""] + q && ([""] + q)[1..] == q && p + q == q;
      EmptyComponent([""] + q);
    } else {
      assert (p + [""] + q)[0] == (p + q)[0] == p[0];
      assert (p + [""] + q)[1..] == p[1..] + [""] + q && (p + q)[1..] == p[1..] + q;
      EmptiesIgnored(p[1..], q);
    }
  }

  lemma EmptyIsNoVersion()
    ensures !IsVersion("")
  {
  }

  // ---- Different libraries have different paths --------------------------------------------------------------

  lemma SameSplit(p: string, x: string, q: string, y: string, c: char)
    requires c !in p && c !in q && p + [c] + x == q + [c] + y
    ensures p == q && x == y
  {
    SplitAtFirst(p, c, x);
    SplitAtFirst(q, c, y);
    assert ([p] + Split(x, c))[0] == p && ([q] + Split(y, c))[0] == q;
    assert (p + [c] + x)[|p| + 1..] == x && (q + [c] + y)[|q| + 1..] == y;
  }

  lemma SamePrefix(base: string, x: string, y: string)
    requires base + x == base + y
    ensures x == y
  {
    assert (base + x)[|base|..] == x && (base + y)[|base|..] == y;
  }

  lemma SameSuffix(x: string, y: string, suffix: string)
    requires x + suffix == y + suffix
    ensures x == y
  {
    assert |x| == |y|;
    assert (x + suffix)[..|x|] == x && (y + suffix)[..|y|] == y;
  }

  lemma SameLastSplit(p: string, x: string, q: string, y: string, c: char)
    requires c !in x && c !in y && p + [c] + x == q + [c] + y
    ensures p == q && x == y
  {
    var s := p + [c] + x;
    assert forall i :: |p| < i < |s| ==> s[i] == x[i - |p| - 1];
    assert forall i :: |q| < i < |s| ==> s[i] == y[i - |q| - 1];
    assert s[|p|] == c && s[|q|] == c;
    assert s[..|p|] == p && s[..|q|] == q;
    assert s[|p| + 1..] == x && s[|q| + 1..] == y;
  }

  lemma PathParts(p: seq<string>, a: string, b: string)
    requires p != []
    ensures Path(p, a, b) == BASE + ((Join(p, '.') + ['@'] + (a + ['.'] + b)) + SUFFIX)
  {
    hide Join;
  }

  /** Whatever the components contain, paths are equal exactly for the same dotted package and the same version. */
  lemma PathsEqualIff(p: seq<string>, a: string, b: string, q: seq<string>, c: string, d: string)
    requires p != [] && q != []
    requires Digits(a) && Digits(b) && Digits(c) && Digits(d)
    ensures Path(p, a, b) == Path(q, c, d) <==> Join(p, '.') == Join(q, '.') && a == c && b == d
  {
    hide Join;
    hide Split;
    if Path(p, a, b) == Path(q, c, d) {
      var x, y := a + ['.'] + b, c + ['.'] + d;
      var s, t := Join(p, '.') + ['@'] + x, Join(q, '.') + ['@'] + y;
      PathParts(p, a, b);
      PathParts(q, c, d);
      SamePrefix(BASE, s + SUFFIX, t + SUFFIX);
      SameSuffix(s, t, SUFFIX);
      assert !IsDigit('.') && !IsDigit('@');
      SameLastSplit(Join(p, '.'), x, Join(q, '.'), y, '@');
      SameSplit(a, b, c, d, '.');
    }
  }

  predicate DotFree(package: seq<string>) {
    forall i :: 0 <= i < |package| ==> '.' !in package[i]
  }

  /** Without dots in components, different packages and versions have different paths. */
  lemma PathsDistinct(p: seq<string>, a: string, b: string, q: seq<string>, c: string, d: string)
    requires p != [] && q != [] && DotFree(p) && DotFree(q)
    requires Digits(a) && Digits(b) && Digits(c) && Digits(d)
    ensures Path(p, a, b) == Path(q, c, d) <==> p == q && a == c && b == d
  {
    PathsEqualIff(p, a, b, q, c, d);
    SplitOfJoin(p, '.');
    SplitOfJoin(q, '.');
  }

  /** A component with a dot collides with two components. */
  lemma DotsCollide()
    ensures Path(["a.b"], "1", "0") == Path(["a", "b"], "1", "0")
  {
    assert Join(["a", "b"], '.') == "a" + ['.'] + Join(["b"], '.') by {
      assert ["a", "b"][1..] == ["b"];
    }
    assert "a" + ['.'] + "b" == "a.b";
  }
}
