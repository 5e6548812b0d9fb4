/**
  Writing test specifiers to a file and reading them back.
 */
module TestListFormat {
  import opened Options
  import opened Text
  import opened Tokens
  import opened TestListParser

  // ---- White space -------------------------------------------------------------------------------------

  predicate AllSpace(s: string) {
    forall i :: 0 <= i < |s| ==> IsSpace(s[i])
  }

  /** Neither end is white space. */
  predicate Tight(s: string) {
    s == "" || (!IsSpace(s[0]) && !IsSpace(s[|s| - 1]))
  }

  lemma {:induction false} SkipPadding(a: string, p: string)
    requires AllSpace(a) && (p == "" || !IsSpace(p[0]))
    ensures SkipSpaces(a + p) == p
  {
    if a == "" {
      assert a + p == p;
    } else {
      assert (a + p)[1..] == a[1..] + p;
      SkipPadding(a[1..], p);
    }
  }

  lemma {:induction false} TrimPadding(p: string, b: string)
    requires AllSpace(b) && (p == "" || !IsSpace(p[|p| - 1]))
    ensures TrimRight(p + b) == p
    decreases |b|
  {
    if b == "" {
      assert p + b == p;
    } else {
      var s := p + b;
      assert s[..|s| - 1] == p + b[..|b| - 1];
      TrimPadding(p, b[..|b| - 1]);
    }
  }

  /** Padding a tight text with white space does not change it once stripped. */
  lemma StripPadding(a: string, p: string, b: string)
    requires AllSpace(a) && AllSpace(b) && Tight(p) && p != ""
    ensures Strip(a + p + b) == p
  {
    assert a + p + b == a + (p + b);
    assert (p + b)[0] == p[0];
    SkipPadding(a, p + b);
    TrimPadding(p, b);
  }

  lemma StripTight(p: string)
    requires Tight(p)
    ensures Strip(p) == p
  {
    if p == "" {
    } else {
      StripPadding("", p, "");
      assert "" + p + "" == p;
    }
  }

  lemma {:induction false} TrimIsTight(s: string)
    ensures TrimRight(s) <= s
    ensures TrimRight(s) == "" || !IsSpace(TrimRight(s)[|TrimRight(s)| - 1])
    decreases |s|
  {
    if s != "" && IsSpace(s[|s| - 1]) {
      TrimIsTight(s[..|s| - 1]);
    }
  }

  lemma {:induction false} SkipIsSuffix(s: string)
    ensures |SkipSpaces(s)| <= |s| && SkipSpaces(s) == s[|s| - |SkipSpaces(s)|..]
    ensures SkipSpaces(s) == "" || !IsSpace(SkipSpaces(s)[0])
  {
    if s != "" && IsSpace(s[0]) {
      SkipIsSuffix(s[1..]);
    }
  }

  /** Stripping leaves a tight text made of characters of the original. */
  lemma StripIsTight(s: string)
    ensures Tight(Strip(s))
    ensures forall c :: c in Strip(s) ==> c in s
  {
    SkipIsSuffix(s);
    TrimIsTight(SkipSpaces(s));
  }

  // ---- Specifiers as text --------------------------------------------------------------------------------

  predicate ValidCase(name: string) {
    "test_" <= name && ':' !in name && ',' !in name && Tight(name)
  }

  /** Specifiers that have a textual form. */
  predicate Valid(s: Specifier) {
    && ':' !in s.className && EndsWith(s.className, "Test")
    && (s.cases.Some? ==> s.cases.value != [] && forall i :: 0 <= i < |s.cases.value| ==> ValidCase(s.cases.value[i]))
  }

  function Render(s: Specifier): string
    requires Valid(s)
  {
    match s.cases
    case None => s.className
    case Some(names) => s.className + [':'] + Join(names, ',')
  }

  lemma {:induction false} ValidCaseNames(names: seq<string>)
    requires forall i :: 0 <= i < |names| ==> ValidCase(names[i])
    ensures CaseNames(names) == Some(names)
  {
    hide Strip;
    if names != [] {
      StripTight(names[0]);
      ValidCaseNames(names[1..]);
      assert [names[0]] + names[1..] == names;
    }
  }

  /** Parsing inverts writing, for every specifier that can be written. */
  lemma ParseOfRender(s: Specifier)
    requires Valid(s)
    ensures ParseOne(Render(s)) == Some(s)
  {
    hide Split;
    hide CaseNames;
    match s.cases
    case None =>
      SplitPlain(s.className, ':');
    case Some(names) =>
      var list := Join(names, ',');
      JoinFree(names, ':', ',');
      SplitAtFirst(s.className, ':', list);
      SplitPlain(list, ':');
      assert [s.className] + [list] == [s.className, list];
      SplitOfJoin(names, ',');
      ValidCaseNames(names);
  }

  /** A name with white space around it. */
  ghost predicate Padded(token: string, name: string) {
    exists a, b :: AllSpace(a) && AllSpace(b) && token == a + name + b
  }

  lemma PaddedBy(a: string, name: string, b: string)
    requires AllSpace(a) && AllSpace(b)
    ensures Padded(a + name + b, name)
  {
  }

  lemma {:induction false} PaddedCaseNames(tokens: seq<string>, names: seq<string>)
    requires |tokens| == |names|
    requires forall i :: 0 <= i < |names| ==> ValidCase(names[i]) && Padded(tokens[i], names[i])
    ensures CaseNames(tokens) == Some(names)
  {
    hide Strip;
    if names != [] {
      var a, b :| AllSpace(a) && AllSpace(b) && tokens[0] == a + names[0] + b;
      assert ValidCase(names[0]);
      StripPadding(a, names[0], b);
      PaddedCaseNames(tokens[1..], names[1..]);
      assert [names[0]] + names[1..] == names;
    }
  }

  lemma PaddedIsFree(token: string, name: string, c: char)
    requires Padded(token, name) && c !in name && !IsSpace(c)
    ensures c !in token
  {
  }

  /** White space around the names of test cases changes nothing. */
  lemma PaddingIgnored(s: Specifier, tokens: seq<string>)
    requires Valid(s) && s.cases.Some? && |tokens| == |s.cases.value|
    requires forall i :: 0 <= i < |tokens| ==> Padded(tokens[i], s.cases.value[i])
    ensures ParseOne(s.className + [':'] + Join(tokens, ',')) == Some(s)
  {
    hide Split;
    hide CaseNames;
    hide Padded;
    var names := s.cases.value;
    forall i | 0 <= i < |tokens|
      ensures ':' !in tokens[i] && ',' !in tokens[i]
    {
      assert ValidCase(names[i]);
      PaddedIsFree(tokens[i], names[i], ':');
      PaddedIsFree(tokens[i], names[i], ',');
    }
    var list := Join(tokens, ',');
    JoinFree(tokens, ':', ',');
    SplitAtFirst(s.className, ':', list);
    SplitPlain(list, ':');
    assert [s.className] + [list] == [s.className, list];
    SplitOfJoin(tokens, ',');
    PaddedCaseNames(tokens, names);
  }

  lemma {:induction false} SkipDropsSpaces(s: string)
    ensures |SkipSpaces(s)| <= |s| && AllSpace(s[..|s| - |SkipSpaces(s)|])
  {
    if s != "" && IsSpace(s[0]) {
      SkipIsSuffix(s[1..]);
      SkipDropsSpaces(s[1..]);
      var k := |s| - |SkipSpaces(s)|;
      assert s[..k] == [s[0]] + s[1..][..k - 1];
    }
  }

  lemma {:induction false} TrimDropsSpaces(s: string)
    ensures TrimRight(s) <= s && AllSpace(s[|TrimRight(s)|..])
    decreases |s|
  {
    if s != "" && IsSpace(s[|s| - 1]) {
      var front := s[..|s| - 1];
      TrimDropsSpaces(front);
      assert s[|TrimRight(s)|..] == front[|TrimRight(front)|..] + [s[|s| - 1]];
    }
  }

  /** What is stripped is white space. */
  lemma StripPads(s: string)
    ensures Padded(s, Strip(s))
  {
    SkipIsSuffix(s);
    SkipDropsSpaces(s);
    var t := SkipSpaces(s);
    TrimDropsSpaces(t);
    var a, p, b := s[..|s| - |t|], TrimRight(t), t[|TrimRight(t)|..];
    assert t == p + b && s == a + t;
    assert s == a + p + b;
    PaddedBy(a, p, b);
  }

  lemma {:induction false} CaseNamesPadded(tokens: seq<string>)
    requires CaseNames(tokens).Some?
    ensures |CaseNames(tokens).value| == |tokens|
    ensures forall i :: 0 <= i < |tokens| ==> Padded(tokens[i], CaseNames(tokens).value[i])
  {
    hide Strip;
    hide Padded;
    if tokens != [] {
      StripPads(tokens[0]);
      CaseNamesPadded(tokens[1..]);
    }
  }

  /** The texts that stand for a specifier: its class alone, or with its cases, white space around each. */
  ghost predicate Denotes(item: string, s: Specifier) {
    && Valid(s)
    && match s.cases
       case None => item == s.className
       case Some(names) =>
         exists tokens: seq<string> ::
           && |tokens| == |names| && item == s.className + [':'] + Join(tokens, ',')
           && forall i :: 0 <= i < |tokens| ==> Padded(tokens[i], names[i])
  }

  /** A text is accepted as a specifier if and only if it stands for it; everything else is refused. */
  lemma AcceptedIff(item: string, s: Specifier)
    ensures ParseOne(item) == Some(s) <==> Denotes(item, s)
  {
    if ParseOne(item) == Some(s) {
      AcceptedDenotes(item);
    }
    if Denotes(item, s) {
      match s.cases
      case None => ParseOfRender(s);
      case Some(names) =>
        var tokens: seq<string> :|
          && |tokens| == |names| && item == s.className + [':'] + Join(tokens, ',')
          && forall i :: 0 <= i < |tokens| ==> Padded(tokens[i], names[i]);
        PaddingIgnored(s, tokens);
    }
  }

  lemma AcceptedDenotes(item: string)
    requires ParseOne(item).Some?
    ensures Denotes(item, ParseOne(item).value)
  {
    ParsedIsValid(item);
    hide Valid;
    hide Padded;
    hide Split;
    var tokens := Split(item, ':');
    JoinOfSplit(item, ':');
    if |tokens| == 1 {
      assert item == tokens[0];
    } else {
      assert tokens[1..] == [tokens[1]];
      assert item == tokens[0] + [':'] + tokens[1];
      var cases := Split(tokens[1], ',');
      JoinOfSplit(tokens[1], ',');
      CaseNamesPadded(cases);
    }
  }

  /** A list is accepted if and only if every text is, and stands for what they stand for, in order. */
  lemma {:induction false} ListAcceptedIff(items: seq<string>, specs: seq<Specifier>)
    ensures ParseList(items) == Some(specs) <==>
            |items| == |specs| && forall i :: 0 <= i < |items| ==> Denotes(items[i], specs[i])
    decreases |items|
  {
    hide ParseOne;
    hide Denotes;
    if items != [] {
      if specs != [] {
        AcceptedIff(items[0], specs[0]);
        ListAcceptedIff(items[1..], specs[1..]);
        assert specs == [specs[0]] + specs[1..];
        assert forall i :: 0 < i < |items| && |items| == |specs| ==>
                 items[i] == items[1..][i - 1] && specs[i] == specs[1..][i - 1];
        if ParseList(items) == Some(specs) {
          assert specs[1..] == ParseList(items[1..]).value;
        }
      }
    }
  }

  /** A specifier as people write it. */
  lemma WrittenByHand()
    ensures ParseOne("ATest" + [':'] + ("test_a" + [','] + " test_b"))
         == Some(Specifier("ATest", Some(["test_a", "test_b"])))
  {
    var s, tokens := Specifier("ATest", Some(["test_a", "test_b"])), ["test_a", " test_b"];
    assert Valid(s);
    assert "" + "test_a" + "" == "test_a" && " " + "test_b" + "" == " test_b";
    PaddedBy("", "test_a", "");
    PaddedBy(" ", "test_b", "");
    hide Padded;
    hide Valid;
    assert tokens[1..] == [" test_b"];
    assert Join(tokens, ',') == "test_a" + [','] + " test_b";
    PaddingIgnored(s, tokens);
  }

  lemma {:induction false} CaseNamesValid(tokens: seq<string>)
    requires CaseNames(tokens).Some?
    requires forall i :: 0 <= i < |tokens| ==> ':' !in tokens[i] && ',' !in tokens[i]
    ensures |CaseNames(tokens).value| == |tokens|
    ensures forall i :: 0 <= i < |tokens| ==> ValidCase(CaseNames(tokens).value[i])
  {
    hide Strip;
    if tokens != [] {
      StripIsTight(tokens[0]);
      CaseNamesValid(tokens[1..]);
    }
  }

  lemma {:induction false} SplitKeepsFree(s: string, c: char, d: char)
    requires d !in s
    ensures forall i :: 0 <= i < |Split(s, c)| ==> d !in Split(s, c)[i]
  {
    if s != "" {
      SplitKeepsFree(s[1..], c, d);
    }
  }

  /** Whatever is accepted can be written again, and reads back the same. */
  lemma ParsedIsValid(item: string)
    requires ParseOne(item).Some?
    ensures Valid(ParseOne(item).value)
    ensures ParseOne(Render(ParseOne(item).value)) == ParseOne(item)
  {
    SplitFreeOfSeparator(item, ':');
    var tokens := Split(item, ':');
    if |tokens| == 2 {
      SplitKeepsFree(tokens[1], ',', ':');
      SplitFreeOfSeparator(tokens[1], ',');
      CaseNamesValid(Split(tokens[1], ','));
    }
    ParseOfRender(ParseOne(item).value);
  }

  // ---- Files -----------------------------------------------------------------------------------------------

  /** A text cut into non-empty pieces behind colons and commas only. */
  predicate CutOf(g: seq<string>, text: string) {
    && g != [] && Concat(g) == text
    && (forall i :: 0 <= i < |g| ==> g[i] != "")
    && (forall i :: 0 <= i < |g| - 1 ==> IsOpen(g[i]))
  }

  function Flatten(gs: seq<seq<string>>): seq<string> {
    if gs == [] then [] else gs[0] + Flatten(gs[1..])
  }

  lemma FoldFirst(tf: seq<string>, g: seq<string>, rest: seq<string>)
    requires g != []
    ensures Fold(tf, g + rest) == Fold(Extend(tf, g[0]), g[1..] + rest)
  {
    hide Extend;
    assert (g + rest)[0] == g[0] && (g + rest)[1..] == g[1..] + rest;
  }

  lemma ExtendOpen(tf: seq<string>, entry: string, piece: string)
    requires IsOpen(entry)
    ensures Extend(tf + [entry], piece) == tf + [entry + piece]
  {
    var all := tf + [entry];
    assert all[..|all| - 1] == tf && all[|all| - 1] == entry;
  }

  lemma ConcatFirst(g: seq<string>, entry: string)
    requires g != []
    ensures entry + Concat(g) == (entry + g[0]) + Concat(g[1..])
  {
    var rest := Concat(g[1..]);
    assert entry + (g[0] + rest) == (entry + g[0]) + rest;
  }

  lemma OnlyPiece(g: seq<string>, rest: seq<string>)
    requires |g| == 1
    ensures g[1..] + rest == rest && Concat(g[1..]) == ""
  {
    assert g[1..] == [];
  }

  /** Behind its first piece a cut text goes on, unless it was the only one. */
  lemma CutRest(g: seq<string>)
    requires |g| > 1 && CutOf(g, Concat(g))
    ensures IsOpen(g[0]) && CutOf(g[1..], Concat(g[1..]))
  {
    hide Concat;
    hide IsOpen;
    forall i | 0 <= i < |g[1..]|
      ensures g[1..][i] == g[i + 1]
    {
    }
  }

  lemma OpenAppend(x: string, y: string)
    requires IsOpen(y)
    ensures IsOpen(x + y)
  {
  }

  /** An open entry swallows the remaining pieces of its text. */
  lemma {:induction false} FoldOpenEntry(tf: seq<string>, entry: string, g: seq<string>, rest: seq<string>)
    requires IsOpen(entry) && g != [] && CutOf(g, Concat(g))
    ensures Fold(tf + [entry], g + rest) == Fold(tf + [entry + Concat(g)], rest)
    decreases |g|
  {
    hide Fold;
    hide Extend;
    hide Concat;
    hide CutOf;
    hide IsOpen;
    FoldFirst(tf + [entry], g, rest);
    ExtendOpen(tf, entry, g[0]);
    ConcatFirst(g, entry);
    if |g| == 1 {
      OnlyPiece(g, rest);
      assert (entry + g[0]) + "" == entry + g[0];
    } else {
      CutRest(g);
      OpenAppend(entry, g[0]);
      FoldOpenEntry(tf, entry + g[0], g[1..], rest);
    }
  }

  lemma ExtendClosed(tf: seq<string>, piece: string)
    requires tf == [] || !IsOpen(tf[|tf| - 1])
    ensures Extend(tf, piece) == tf + [piece]
  {
  }

  /** The pieces of one text, met when no entry is open, become one entry. */
  lemma FoldText(tf: seq<string>, g: seq<string>, rest: seq<string>, text: string)
    requires g != [] && CutOf(g, text) && (tf == [] || !IsOpen(tf[|tf| - 1]))
    ensures Fold(tf, g + rest) == Fold(tf + [text], rest)
  {
    assert text == Concat(g);
    hide Fold;
    hide Extend;
    hide Concat;
    hide CutOf;
    hide IsOpen;
    FoldFirst(tf, g, rest);
    ExtendClosed(tf, g[0]);
    ConcatFirst(g, "");
    assert "" + g[0] == g[0] && "" + Concat(g) == Concat(g);
    if |g| == 1 {
      OnlyPiece(g, rest);
      assert g[0] + "" == g[0];
    } else {
      CutRest(g);
      FoldOpenEntry(tf, g[0], g[1..], rest);
    }
  }

  lemma CutNonEmpty(g: seq<string>, text: string)
    requires CutOf(g, text)
    ensures g != []
  {
  }

  lemma FoldNothing(tf: seq<string>)
    ensures Fold(tf, []) == tf
  {
  }

  lemma {:induction false} FoldTexts(tf: seq<string>, gs: seq<seq<string>>, texts: seq<string>)
    requires |gs| == |texts|
    requires forall i :: 0 <= i < |gs| ==> CutOf(gs[i], texts[i]) && !IsOpen(texts[i])
    requires tf == [] || !IsOpen(tf[|tf| - 1])
    ensures Fold(tf, Flatten(gs)) == tf + texts
    decreases |gs|
  {
    hide CutOf;
    hide Fold;
    if gs == [] {
      FoldNothing(tf);
      assert tf + texts == tf;
    } else {
      CutNonEmpty(gs[0], texts[0]);
      FoldText(tf, gs[0], Flatten(gs[1..]), texts[0]);
      FoldTexts(tf + [texts[0]], gs[1..], texts[1..]);
      assert (tf + [texts[0]]) + texts[1..] == tf + texts;
    }
  }

  function RenderAll(specs: seq<Specifier>): seq<string>
    requires forall i :: 0 <= i < |specs| ==> Valid(specs[i])
  {
    if specs == [] then [] else [Render(specs[0])] + RenderAll(specs[1..])
  }

  lemma {:induction false} RenderAllAt(specs: seq<Specifier>)
    requires forall i :: 0 <= i < |specs| ==> Valid(specs[i])
    ensures |RenderAll(specs)| == |specs|
    ensures forall i :: 0 <= i < |specs| ==> RenderAll(specs)[i] == Render(specs[i])
  {
    hide Render;
    hide Valid;
    if specs != [] {
      RenderAllAt(specs[1..]);
    }
  }

  lemma {:induction false} ParseOfRenderAll(specs: seq<Specifier>)
    requires forall i :: 0 <= i < |specs| ==> Valid(specs[i])
    ensures ParseList(RenderAll(specs)) == Some(specs)
  {
    hide Render;
    hide Valid;
    hide ParseOne;
    if specs != [] {
      ParseOfRender(specs[0]);
      ParseOfRenderAll(specs[1..]);
      assert RenderAll(specs)[1..] == RenderAll(specs[1..]);
      assert [specs[0]] + specs[1..] == specs;
    }
  }

  lemma RenderNotOpen(s: Specifier)
    requires Valid(s)
    ensures !IsOpen(Render(s))
  {
    if s.cases.Some? {
      var names := s.cases.value;
      JoinEnd(names);
      var last := names[|names| - 1];
      assert ValidCase(last);
      assert last[|last| - 1] in last;
    } else {
      assert s.className[|s.className| - 4..][3] == 't';
    }
  }

  lemma {:induction false} JoinEnd(ps: seq<string>)
    requires ps != [] && ps[|ps| - 1] != ""
    ensures Join(ps, ',') != "" && Join(ps, ',')[|Join(ps, ',')| - 1] == ps[|ps| - 1][|ps[|ps| - 1]| - 1]
  {
    if |ps| > 1 {
      JoinEnd(ps[1..]);
    }
  }

  /** A line of a written file: white space only, or a piece of text with white space around it. */
  datatype Line = Blank(space: string) | Piece(before: string, text: string, after: string)

  predicate WellWritten(l: Line) {
    match l
    case Blank(space) => AllSpace(space)
    case Piece(before, text, after) => AllSpace(before) && AllSpace(after) && text != "" && Tight(text)
  }

  /** No line break inside the line. */
  predicate OneLine(l: Line) {
    '\n' !in Written(l)
  }

  function Written(l: Line): string {
    match l
    case Blank(space) => space
    case Piece(before, text, after) => before + text + after
  }

  /** The pieces laid out, in order. */
  function LaidOut(layout: seq<Line>): seq<string> {
    if layout == [] then []
    else (if layout[0].Blank? then [] else [layout[0].text]) + LaidOut(layout[1..])
  }

  lemma StripWritten(l: Line)
    requires WellWritten(l)
    ensures Strip(Written(l)) == if l.Blank? then "" else l.text
  {
    hide Strip;
    match l
    case Blank(space) => StripBlank(space);
    case Piece(before, text, after) => StripPadding(before, text, after);
  }

  lemma StripBlank(space: string)
    requires AllSpace(space)
    ensures Strip(space) == ""
  {
    SkipPadding(space, "");
    assert space + "" == space;
  }

  /** The text of a file: a line break behind every line, which the last line may lack. */
  function FileText(layout: seq<Line>, closed: bool): string {
    if layout == [] then ""
    else if |layout| == 1 && !closed then Written(layout[0])
    else Written(layout[0]) + "\n" + FileText(layout[1..], closed)
  }

  lemma {:induction false} LineEndAt(line: string, rest: string)
    requires '\n' !in line
    ensures LineEnd(line + "\n" + rest) == |line| + 1
    ensures LineEnd(line) == |line|
  {
    if line == "" {
      assert (line + "\n" + rest)[0] == '\n';
    } else {
      assert (line + "\n" + rest)[1..] == line[1..] + "\n" + rest;
      LineEndAt(line[1..], rest);
    }
  }

  lemma FirstLine(line: string, rest: string)
    requires '\n' !in line
    ensures FileLines(line + "\n" + rest) == [line + "\n"] + FileLines(rest)
  {
    hide LineEnd;
    var text := line + "\n" + rest;
    LineEndAt(line, rest);
    assert text[..|line| + 1] == line + "\n" && text[|line| + 1..] == rest;
  }

  lemma LastLine(line: string)
    requires '\n' !in line
    ensures FileLines(line) == if line == "" then [] else [line]
  {
    hide LineEnd;
    LineEndAt(line, "");
    if line != "" {
      assert line[..|line|] == line && line[|line|..] == "";
    }
  }

  /** A line break behind a line is white space like any other. */
  lemma StripBroken(l: Line)
    requires WellWritten(l)
    ensures Strip(Written(l) + "\n") == if l.Blank? then "" else l.text
  {
    hide Strip;
    match l
    case Blank(space) => StripBlank(space + "\n");
    case Piece(before, text, after) =>
      assert (before + text + after) + "\n" == before + text + (after + "\n");
      StripPadding(before, text, after + "\n");
  }

  lemma PiecesFirst(line: string, rest: seq<string>)
    ensures Pieces([line] + rest) == (if Strip(line) == "" then [] else [Strip(line)]) + Pieces(rest)
  {
    hide Strip;
    assert ([line] + rest)[1..] == rest;
  }

  /** Reading the lines of a written file, stripping them and dropping blank ones gives back what was laid out. */
  lemma {:induction false} PiecesOfFile(layout: seq<Line>, closed: bool)
    requires forall i :: 0 <= i < |layout| ==> WellWritten(layout[i]) && OneLine(layout[i])
    ensures Pieces(FileLines(FileText(layout, closed))) == LaidOut(layout)
  {
    hide Strip;
    hide Written;
    hide FileLines;
    if layout == [] {
      LastLine("");
    } else {
      var l := layout[0];
      var line := Written(l);
      if |layout| == 1 && !closed {
        LastLine(line);
        StripWritten(l);
        PiecesFirst(line, []);
        assert [line] + [] == [line];
        assert l.Piece? ==> line != "" by { WrittenNonEmpty(l); }
      } else {
        FirstLine(line, FileText(layout[1..], closed));
        StripBroken(l);
        PiecesFirst(line + "\n", FileLines(FileText(layout[1..], closed)));
        PiecesOfFile(layout[1..], closed);
      }
    }
  }

  lemma WrittenNonEmpty(l: Line)
    ensures l.Piece? && l.text != "" ==> Written(l) != ""
  {
  }

  /**
    Round trip: specifiers written to a file with line breaks only behind colons and commas,
    blank lines anywhere and any white space at line ends, are read back as they were.
   */
  lemma FileRoundTrip(layout: seq<Line>, closed: bool, gs: seq<seq<string>>, specs: seq<Specifier>)
    requires forall i :: 0 <= i < |layout| ==> WellWritten(layout[i]) && OneLine(layout[i])
    requires |gs| == |specs| && forall i :: 0 <= i < |specs| ==> Valid(specs[i])
    requires forall i :: 0 <= i < |specs| ==> CutOf(gs[i], Render(specs[i]))
    requires LaidOut(layout) == Flatten(gs)
    ensures var entries := Entries(FileLines(FileText(layout, closed)));
            entries == RenderAll(specs) && ParseList(entries) == Some(specs)
  {
    RenderAllAt(specs);
    forall i | 0 <= i < |specs|
      ensures CutOf(gs[i], RenderAll(specs)[i]) && !IsOpen(RenderAll(specs)[i])
    {
      RenderNotOpen(specs[i]);
    }
    PiecesOfFile(layout, closed);
    FoldTexts([], gs, RenderAll(specs));
    assert [] + RenderAll(specs) == RenderAll(specs);
    ParseOfRenderAll(specs);
  }

  /** A piece that can stand on a line. */
  predicate FitsLine(piece: string) {
    Tight(piece) && '\n' !in piece
  }

  /** The specifier can be cut into pieces that can stand on lines. */
  ghost predicate Writable(s: Specifier)
    requires Valid(s)
  {
    exists g :: CutOf(g, Render(s)) && forall i :: 0 <= i < |g| ==> FitsLine(g[i])
  }

  lemma {:induction false} ConcatFitsLine(g: seq<string>)
    requires g != [] && forall i :: 0 <= i < |g| ==> g[i] != "" && FitsLine(g[i])
    ensures Concat(g) != "" && FitsLine(Concat(g))
  {
    if |g| == 1 {
      assert g == [g[0]];
      OneConcat(g[0]);
    } else {
      ConcatFitsLine(g[1..]);
      var rest := Concat(g[1..]);
      assert Concat(g) == g[0] + rest;
      assert (g[0] + rest)[0] == g[0][0] && (g[0] + rest)[|g[0] + rest| - 1] == rest[|rest| - 1];
    }
  }

  /** A specifier can be written to a file if and only if its text has no line break and no white space at its ends. */
  lemma WritableIff(s: Specifier)
    requires Valid(s)
    ensures Writable(s) <==> FitsLine(Render(s))
  {
    hide Render;
    hide FitsLine;
    var text := Render(s);
    if Writable(s) {
      var g :| CutOf(g, text) && forall i :: 0 <= i < |g| ==> FitsLine(g[i]);
      ConcatFitsLine(g);
    }
    if FitsLine(text) {
      OneConcat(text);
      RenderNonEmpty(s);
      assert CutOf([text], text);
    }
  }

  lemma RenderNonEmpty(s: Specifier)
    requires Valid(s)
    ensures Render(s) != ""
  {
  }
}
