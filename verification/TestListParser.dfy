/**
  Test list files: specifiers, one per line, which may be continued on the next line behind
  a colon or a comma.
 */
module TestListParser {
  import opened Options
  import opened Text
  import opened Tokens

  // ---- Lines to specifiers --------------------------------------------------------------------------

  /** An entry that the next line continues. */
  predicate IsOpen(s: string) {
    s != "" && (s[|s| - 1] == ':' || s[|s| - 1] == ',')
  }

  /** Exactly a colon or a comma at the end leaves an entry open. */
  lemma OpenByLast(s: string, c: char)
    ensures IsOpen(s + [c]) <==> c in ":,"
    ensures !IsOpen("")
  {
    assert (s + [c])[|s + [c]| - 1] == c;
  }

  /** One non-blank line: continues the last entry or starts a new one. */
  function Extend(tf: seq<string>, line: string): seq<string> {
    if tf != [] && IsOpen(tf[|tf| - 1]) then tf[..|tf| - 1] + [tf[|tf| - 1] + line]
    else tf + [line]
  }

  /** Stripped non-blank lines. */
  function Pieces(lines: seq<string>): seq<string> {
    if lines == [] then []
    else (if Strip(lines[0]) == "" then [] else [Strip(lines[0])]) + Pieces(lines[1..])
  }

  function Fold(tf: seq<string>, pieces: seq<string>): seq<string>
    decreases |pieces|
  {
    if pieces == [] then tf else Fold(Extend(tf, pieces[0]), pieces[1..])
  }

  /** The entries of a file. */
  function Entries(lines: seq<string>): seq<string> {
    Fold([], Pieces(lines))
  }

  /** Characters up to and with the first line break. */
  function LineEnd(text: string): (k: nat)
    ensures k <= |text| && (text != "" ==> k > 0)
  {
    if text == "" then 0 else if text[0] == '\n' then 1 else 1 + LineEnd(text[1..])
  }

  /** The lines of a file, each with its line break if it has one. */
  function FileLines(text: string): seq<string> {
    if text == "" then [] else [text[..LineEnd(text)]] + FileLines(text[LineEnd(text)..])
  }

  method ParseTestFile(text: string) returns (tf: seq<string>)
    ensures tf == Entries(FileLines(text))
  {
    var lines := FileLines(text);
    hide Fold;
    hide Pieces;
    hide Strip;
    tf := [];
    assert lines[0..] == lines;
    for i := 0 to |lines|
      invariant Fold(tf, Pieces(lines[i..])) == Entries(lines)
    {
      FoldLine(tf, lines, i);
      var line := Strip(lines[i]);
      if line == "" { continue; }
      if |tf| > 0 && IsOpen(tf[|tf| - 1]) {
        var last := |tf| - 1;
        assert tf[last := tf[last] + line] == tf[..last] + [tf[last] + line];
        tf := tf[last := tf[last] + line];
      } else {
        tf := tf + [line];
      }
    }
    NoLines(tf, lines);
  }

  lemma FoldLine(tf: seq<string>, lines: seq<string>, i: nat)
    requires i < |lines|
    ensures Fold(tf, Pieces(lines[i..])) ==
            Fold(if Strip(lines[i]) == "" then tf else Extend(tf, Strip(lines[i])), Pieces(lines[i + 1..]))
  {
    hide Extend;
    hide Strip;
    var here := lines[i..];
    assert here[0] == lines[i] && here[1..] == lines[i + 1..];
    if Strip(lines[i]) == "" {
      assert [] + Pieces(here[1..]) == Pieces(here[1..]);
    } else {
      assert Pieces(here)[1..] == Pieces(here[1..]);
    }
  }

  lemma NoLines(tf: seq<string>, lines: seq<string>)
    ensures Fold(tf, Pieces(lines[|lines|..])) == tf
  {
  }

  /** Nothing is lost: the entries together are the stripped non-blank lines together. */
  lemma {:induction false} FoldKeepsText(tf: seq<string>, pieces: seq<string>)
    ensures Concat(Fold(tf, pieces)) == Concat(tf) + Concat(pieces)
    decreases |pieces|
  {
    hide Extend;
    if pieces == [] {
      assert Concat(tf) + "" == Concat(tf);
    } else {
      var line := pieces[0];
      FoldKeepsText(Extend(tf, line), pieces[1..]);
      assert Concat(Extend(tf, line)) == Concat(tf) + line by { ExtendKeepsText(tf, line); }
      assert (Concat(tf) + line) + Concat(pieces[1..]) == Concat(tf) + (line + Concat(pieces[1..]));
    }
  }

  lemma ExtendKeepsText(tf: seq<string>, line: string)
    ensures Concat(Extend(tf, line)) == Concat(tf) + line
  {
    OneConcat(line);
    if tf != [] && IsOpen(tf[|tf| - 1]) {
      var front, last := tf[..|tf| - 1], tf[|tf| - 1];
      assert tf == front + [last];
      ConcatOfAppend(front, [last]);
      ConcatOfAppend(front, [last + line]);
      OneConcat(last);
      OneConcat(last + line);
      assert (Concat(front) + last) + line == Concat(front) + (last + line);
    } else {
      ConcatOfAppend(tf, [line]);
    }
  }

  lemma OneConcat(s: string)
    ensures Concat([s]) == s
  {
    assert s + "" == s;
  }

  /** Only the last entry can be left open, and no entry is empty. */
  predicate Closed(tf: seq<string>) {
    && (forall i :: 0 <= i < |tf| ==> tf[i] != "")
    && (forall i :: 0 <= i < |tf| - 1 ==> !IsOpen(tf[i]))
  }

  lemma {:induction false} FoldCloses(tf: seq<string>, pieces: seq<string>)
    requires Closed(tf) && forall i :: 0 <= i < |pieces| ==> pieces[i] != ""
    ensures Closed(Fold(tf, pieces))
    decreases |pieces|
  {
    if pieces != [] {
      FoldCloses(Extend(tf, pieces[0]), pieces[1..]);
    }
  }

  lemma {:induction false} PiecesNonEmpty(lines: seq<string>)
    ensures forall i :: 0 <= i < |Pieces(lines)| ==> Pieces(lines)[i] != ""
  {
    if lines != [] {
      PiecesNonEmpty(lines[1..]);
    }
  }

  /** For any file: the text is kept, and only the last entry may end in a colon or a comma. */
  lemma EntriesSound(lines: seq<string>)
    ensures Concat(Entries(lines)) == Concat(Pieces(lines))
    ensures Closed(Entries(lines))
  {
    FoldKeepsText([], Pieces(lines));
    assert "" + Concat(Pieces(lines)) == Concat(Pieces(lines));
    PiecesNonEmpty(lines);
    FoldCloses([], Pieces(lines));
  }

  // ---- Specifiers --------------------------------------------------------------------------------------

  /** A test class, alone or with the test cases to run. */
  datatype Specifier = Specifier(className: string, cases: Option<seq<string>>)

  predicate EndsWith(s: string, suffix: string) {
    |s| >= |suffix| && s[|s| - |suffix|..] == suffix
  }

  /** Test case names behind a class; none if one breaks the naming rule. */
  function CaseNames(tokens: seq<string>): Option<seq<string>> {
    if tokens == [] then Some([])
    else if !("test_" <= Strip(tokens[0])) then None
    else match CaseNames(tokens[1..])
      case None => None
      case Some(names) => Some([Strip(tokens[0])] + names)
  }

  /** The meaning of one specifier; none where the original raises a user error. */
  function ParseOne(item: string): Option<Specifier> {
    var tokens := Split(item, ':');
    if |tokens| > 2 || !EndsWith(tokens[0], "Test") then None
    else if |tokens| == 1 then Some(Specifier(tokens[0], None))
    else match CaseNames(Split(tokens[1], ','))
      case None => None
      case Some(names) => Some(Specifier(tokens[0], Some(names)))
  }

  function ParseList(items: seq<string>): Option<seq<Specifier>> {
    if items == [] then Some([])
    else match ParseOne(items[0])
      case None => None
      case Some(s) =>
        match ParseList(items[1..])
        case None => None
        case Some(rest) => Some([s] + rest)
  }

  method ParseOneTestSpecifier(item: string) returns (r: Option<Specifier>)
    ensures r == ParseOne(item)
  {
    var tokens := Split(item, ':');
    if |tokens| > 2 { return None; }
    if |tokens| == 1 {
      if !EndsWith(tokens[0], "Test") { return None; }
      return Some(Specifier(tokens[0], None));
    }
    if !EndsWith(tokens[0], "Test") { return None; }
    var names: seq<string> := [];
    var elems := Split(tokens[1], ',');
    assert elems[0..] == elems;
    PrependNone(CaseNames(elems));
    for i := 0 to |elems|
      invariant CaseNames(elems) == Prepend(names, CaseNames(elems[i..]))
    {
      assert elems[i..][0] == elems[i] && elems[i..][1..] == elems[i + 1..];
      var name := Strip(elems[i]);
      if !("test_" <= name) { return None; }
      PrependOne(names, name, CaseNames(elems[i + 1..]));
      names := names + [name];
    }
    assert names + [] == names;
    return Some(Specifier(tokens[0], Some(names)));
  }

  function Prepend(names: seq<string>, rest: Option<seq<string>>): Option<seq<string>> {
    match rest case None => None case Some(r) => Some(names + r)
  }

  lemma PrependNone(rest: Option<seq<string>>)
    ensures Prepend([], rest) == rest
  {
    if rest.Some? {
      assert [] + rest.value == rest.value;
    }
  }

  lemma PrependOne(names: seq<string>, name: string, rest: Option<seq<string>>)
    ensures Prepend(names, Prepend([name], rest)) == Prepend(names + [name], rest)
  {
    if rest.Some? {
      assert names + ([name] + rest.value) == (names + [name]) + rest.value;
    }
  }

  method ParseTestList(items: seq<string>) returns (r: Option<seq<Specifier>>)
    ensures r == ParseList(items)
  {
    var result: seq<Specifier> := [];
    assert items[0..] == items;
    if ParseList(items).Some? {
      assert result + ParseList(items).value == ParseList(items).value;
    }
    for i := 0 to |items|
      invariant ParseList(items) ==
                match ParseList(items[i..]) case None => None case Some(rest) => Some(result + rest)
    {
      assert items[i..][0] == items[i] && items[i..][1..] == items[i + 1..];
      var s := ParseOneTestSpecifier(items[i]);
      if s == None { return None; }
      if ParseList(items[i + 1..]).Some? {
        var rest := ParseList(items[i + 1..]).value;
        assert result + ([s.value] + rest) == (result + [s.value]) + rest;
      }
      result := result + [s.value];
    }
    assert result + [] == result;
    return Some(result);
  }
}
