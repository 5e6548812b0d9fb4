/**
  Bookkeeping of test results: six lists of records and the operations on them, as values.
 */
module TestResults {
  import opened Options

  datatype Outcome = Pass | Fail | Skip | Error

  /** A test record: the identity of the object, and the names that never change. */
  datatype Record = Record(id: nat, testClass: string, testName: string) {
    function FullName(): string {
      testClass + "." + testName
    }

    predicate IsSameTestCase(other: Record) {
      FullName() == other.FullName()
    }
  }

  /** The records of a list whose full name differs from `name`, in order. */
  function Without(l: seq<Record>, name: string): seq<Record> {
    if l == [] then []
    else (if l[0].FullName() == name then [] else [l[0]]) + Without(l[1..], name)
  }

  /** The records whose test case does not occur in `executed`, in order. */
  function Missing(requested: seq<Record>, executed: seq<Record>): seq<Record> {
    if requested == [] then []
    else (if Occurs(requested[0].FullName(), executed) then [] else [requested[0]]) + Missing(requested[1..], executed)
  }

  predicate Occurs(name: string, l: seq<Record>) {
    exists i :: 0 <= i < |l| && l[i].FullName() == name
  }

  /** The lists of a result, with the records that were reported as not executed. */
  datatype Lists = Lists(
    requested: seq<Record>, failed: seq<Record>, executed: seq<Record>,
    passed: seq<Record>, skipped: seq<Record>, error: seq<Record>,
    reported: seq<Record>)

  const NO_RESULTS := Lists([], [], [], [], [], [], [])

  function Request(s: Lists, r: Record): Lists {
    s.(requested := s.requested + [r])
  }

  function Remove(s: Lists, name: string): Lists {
    Lists(Without(s.requested, name), Without(s.failed, name), Without(s.executed, name),
          Without(s.passed, name), Without(s.skipped, name), Without(s.error, name), Without(s.reported, name))
  }

  /** Puts an executed record into the list of its outcome; anything unknown is an error. */
  function File(s: Lists, r: Record, outcome: Option<Outcome>): Lists {
    var t := s.(executed := s.executed + [r]);
    match outcome
    case Some(Fail) => t.(failed := t.failed + [r])
    case Some(Skip) => t.(skipped := t.skipped + [r])
    case Some(Pass) => t.(passed := t.passed + [r])
    case _ => t.(error := t.error + [r])
  }

  function Add(s: Lists, r: Record, outcome: Option<Outcome>): Lists {
    File(Remove(s, r.FullName()), r, outcome)
  }

  function Report(s: Lists): Lists {
    var missing := Missing(s.requested, s.executed);
    s.(error := s.error + missing, reported := s.reported + missing)
  }

  function Append(s: Lists, u: Lists): Lists {
    Lists(s.requested + u.requested, s.failed + u.failed, s.executed + u.executed, s.passed + u.passed,
          s.skipped + u.skipped, s.error + u.error, s.reported + u.reported)
  }

  function Merge(s: Lists, t: Lists): Lists {
    Append(s, Report(t))
  }

  // ---- Conservation -----------------------------------------------------------------------------------

  /** How often a record occurs in a list. */
  function Count(l: seq<Record>, r: Record): nat {
    multiset(l)[r]
  }

  /** Occurrences in the outcome lists, beyond those that execution and reporting account for. */
  function Surplus(s: Lists, r: Record): int {
    Count(s.passed, r) + Count(s.failed, r) + Count(s.skipped, r) + Count(s.error, r)
    - Count(s.executed, r) - Count(s.reported, r)
  }

  /** Outcome lists together hold exactly the executed records and those reported as not executed. */
  ghost predicate Conserved(s: Lists) {
    forall r :: Surplus(s, r) == 0
  }

  lemma CountAppend(l: seq<Record>, m: seq<Record>, r: Record)
    ensures Count(l + m, r) == Count(l, r) + Count(m, r)
  {
  }

  lemma {:induction false} CountWithout(l: seq<Record>, name: string, r: Record)
    ensures Count(Without(l, name), r) == if r.FullName() == name then 0 else Count(l, r)
  {
    if l != [] {
      var front := if l[0].FullName() == name then [] else [l[0]];
      assert l == [l[0]] + l[1..];
      CountAppend([l[0]], l[1..], r);
      CountAppend(front, Without(l[1..], name), r);
      CountWithout(l[1..], name, r);
    }
  }

  lemma RemoveConserves(s: Lists, name: string)
    requires Conserved(s)
    ensures Conserved(Remove(s, name))
  {
    hide Without;
    hide Count;
    var t := Remove(s, name);
    forall r
      ensures Surplus(t, r) == 0
    {
      assert Surplus(s, r) == 0;
      CountWithout(s.passed, name, r);
      CountWithout(s.failed, name, r);
      CountWithout(s.skipped, name, r);
      CountWithout(s.error, name, r);
      CountWithout(s.executed, name, r);
      CountWithout(s.reported, name, r);
    }
  }

  lemma FileConserves(s: Lists, r: Record, outcome: Option<Outcome>)
    requires Conserved(s)
    ensures Conserved(File(s, r, outcome))
  {
    hide Count;
    var t := File(s, r, outcome);
    forall q
      ensures Surplus(t, q) == 0
    {
      assert Surplus(s, q) == 0;
      CountAppend(s.executed, [r], q);
      CountAppend(s.passed, [r], q);
      CountAppend(s.failed, [r], q);
      CountAppend(s.skipped, [r], q);
      CountAppend(s.error, [r], q);
    }
  }

  lemma ReportConserves(s: Lists)
    requires Conserved(s)
    ensures Conserved(Report(s))
  {
    hide Count;
    hide Missing;
    var missing := Missing(s.requested, s.executed);
    forall r
      ensures Surplus(Report(s), r) == 0
    {
      assert Surplus(s, r) == 0;
      CountAppend(s.error, missing, r);
      CountAppend(s.reported, missing, r);
    }
  }

  lemma MergeConserves(s: Lists, t: Lists)
    requires Conserved(s) && Conserved(t)
    ensures Conserved(Merge(s, t))
  {
    hide Count;
    ReportConserves(t);
    var u := Report(t);
    forall r
      ensures Surplus(Merge(s, t), r) == 0
    {
      assert Surplus(s, r) == 0 && Surplus(u, r) == 0;
      CountAppend(s.passed, u.passed, r);
      CountAppend(s.failed, u.failed, r);
      CountAppend(s.skipped, u.skipped, r);
      CountAppend(s.error, u.error, r);
      CountAppend(s.executed, u.executed, r);
      CountAppend(s.reported, u.reported, r);
    }
  }

  /** The same as an equation between multisets. */
  lemma ConservedMultisets(s: Lists)
    requires Conserved(s)
    ensures multiset(s.passed) + multiset(s.failed) + multiset(s.skipped) + multiset(s.error)
         == multiset(s.executed) + multiset(s.reported)
  {
    forall r
      ensures (multiset(s.passed) + multiset(s.failed) + multiset(s.skipped) + multiset(s.error))[r]
           == (multiset(s.executed) + multiset(s.reported))[r]
    {
      assert Surplus(s, r) == 0;
    }
  }

  /**
    Everything that can happen to a result object, including being merged from two others.  The
    sum of an object with itself is merged from its history with a report and its history.
   */
  datatype History =
    | New
    | Requested(before: History, record: Record)
    | Added(before: History, record: Record, outcome: Option<Outcome>)
    | Removed(before: History, name: string)
    | ClassPassed(before: History, record: Record)
    | ClassSkipped(before: History, record: Record)
    | Reported(before: History)
    | Merged(left: History, right: History)

  function Eval(h: History): Lists {
    match h
    case New => NO_RESULTS
    case Requested(b, r) => Request(Eval(b), r)
    case Added(b, r, o) => Add(Eval(b), r, o)
    case Removed(b, name) => Remove(Eval(b), name)
    case ClassPassed(b, r) => File(Eval(b), r, Some(Pass))
    case ClassSkipped(b, r) => File(Eval(b), r, Some(Skip))
    case Reported(b) => Report(Eval(b))
    case Merged(l, r) => Merge(Eval(l), Eval(r))
  }

  /** Conservation holds after every history. */
  lemma {:induction false} AlwaysConserved(h: History)
    ensures Conserved(Eval(h))
    decreases h
  {
    hide Conserved;
    match h
    case New => EmptyConserved();
    case Requested(b, r) =>
      AlwaysConserved(b);
      RequestConserves(Eval(b), r);
    case Added(b, r, o) =>
      AlwaysConserved(b);
      RemoveConserves(Eval(b), r.FullName());
      FileConserves(Remove(Eval(b), r.FullName()), r, o);
    case Removed(b, name) =>
      AlwaysConserved(b);
      RemoveConserves(Eval(b), name);
    case ClassPassed(b, r) =>
      AlwaysConserved(b);
      FileConserves(Eval(b), r, Some(Pass));
    case ClassSkipped(b, r) =>
      AlwaysConserved(b);
      FileConserves(Eval(b), r, Some(Skip));
    case Reported(b) =>
      AlwaysConserved(b);
      ReportConserves(Eval(b));
    case Merged(l, r) =>
      AlwaysConserved(l);
      AlwaysConserved(r);
      MergeConserves(Eval(l), Eval(r));
  }

  lemma EmptyConserved()
    ensures Conserved(NO_RESULTS)
  {
  }

  lemma RequestConserves(s: Lists, r: Record)
    requires Conserved(s)
    ensures Conserved(Request(s, r))
  {
    forall q
      ensures Surplus(Request(s, r), q) == 0
    {
      assert Surplus(s, q) == 0;
    }
  }

  // ---- Each list by itself --------------------------------------------------------------------------------

  /** The lists of a result. */
  datatype Which = InRequested | InExecuted | InPassed | InFailed | InSkipped | InError | InReported

  function ListOf(s: Lists, w: Which): seq<Record> {
    match w
    case InRequested => s.requested
    case InExecuted => s.executed
    case InPassed => s.passed
    case InFailed => s.failed
    case InSkipped => s.skipped
    case InError => s.error
    case InReported => s.reported
  }

  /** Where a record of an outcome belongs besides the executed ones. */
  function Home(outcome: Option<Outcome>): Which {
    match outcome
    case Some(Pass) => InPassed
    case Some(Fail) => InFailed
    case Some(Skip) => InSkipped
    case Some(Error) => InError
    case None => InError
  }

  /** The record, if the list is one of those it is filed in. */
  function IfFiled(w: Which, r: Record, outcome: Option<Outcome>): seq<Record> {
    if w == InExecuted || w == Home(outcome) then [r] else []
  }

  /**
    What a list holds after a history, from what happened alone: additions and removals drop
    the name from it, records enter the lists of their outcome, missing ones enter the errors
    when they are reported, and a merge puts each list behind its namesake.
   */
  function Holding(h: History, w: Which): seq<Record>
    decreases h, 0
  {
    match h
    case New => []
    case Requested(b, r) => Holding(b, w) + if w == InRequested then [r] else []
    case Added(b, r, o) => Without(Holding(b, w), r.FullName()) + IfFiled(w, r, o)
    case Removed(b, name) => Without(Holding(b, w), name)
    case ClassPassed(b, r) => Holding(b, w) + IfFiled(w, r, Some(Pass))
    case ClassSkipped(b, r) => Holding(b, w) + IfFiled(w, r, Some(Skip))
    case Reported(b) => Holding(b, w) + NewlyReported(b, w)
    case Merged(l, r) => Holding(l, w) + (Holding(r, w) + NewlyReported(r, w))
  }

  /** What a report after a history adds to a list. */
  function NewlyReported(h: History, w: Which): seq<Record>
    decreases h, 1
  {
    if w == InError || w == InReported then Missing(Holding(h, InRequested), Holding(h, InExecuted)) else []
  }

  lemma FiledHome(s: Lists, r: Record, outcome: Option<Outcome>, w: Which)
    ensures ListOf(File(s, r, outcome), w) == ListOf(s, w) + IfFiled(w, r, outcome)
  {
    assert ListOf(s, w) + [] == ListOf(s, w);
  }

  lemma RemovedFrom(s: Lists, name: string, w: Which)
    ensures ListOf(Remove(s, name), w) == Without(ListOf(s, w), name)
  {
    hide Without;
  }

  lemma ReportedTo(h: History, w: Which)
    requires Eval(h).requested == Holding(h, InRequested) && Eval(h).executed == Holding(h, InExecuted)
    requires ListOf(Eval(h), w) == Holding(h, w)
    ensures ListOf(Report(Eval(h)), w) == Holding(h, w) + NewlyReported(h, w)
  {
    hide Missing;
    hide Eval;
    hide Holding;
    assert Holding(h, w) + [] == Holding(h, w);
  }

  /** After any history each list holds exactly what the history puts there, in order. */
  lemma {:induction false} ListsFollowHistory(h: History, w: Which)
    ensures ListOf(Eval(h), w) == Holding(h, w)
    decreases h, 0
  {
    hide Missing;
    hide Without;
    hide File;
    hide Remove;
    hide Report;
    match h
    case New =>
    case Requested(b, r) =>
      ListsFollowHistory(b, w);
      assert Holding(b, w) + [] == Holding(b, w);
    case Added(b, r, o) =>
      ListsFollowHistory(b, w);
      RemovedFrom(Eval(b), r.FullName(), w);
      FiledHome(Remove(Eval(b), r.FullName()), r, o, w);
    case Removed(b, name) =>
      ListsFollowHistory(b, w);
      RemovedFrom(Eval(b), name, w);
    case ClassPassed(b, r) =>
      ListsFollowHistory(b, w);
      FiledHome(Eval(b), r, Some(Pass), w);
    case ClassSkipped(b, r) =>
      ListsFollowHistory(b, w);
      FiledHome(Eval(b), r, Some(Skip), w);
    case Reported(b) =>
      ReportFollows(b, w);
    case Merged(l, r) =>
      ListsFollowHistory(l, w);
      ReportFollows(r, w);
      AppendedTo(Eval(l), Report(Eval(r)), w);
  }

  lemma ReportFollows(h: History, w: Which)
    ensures ListOf(Report(Eval(h)), w) == Holding(h, w) + NewlyReported(h, w)
    decreases h, 1
  {
    hide Report;
    ListsFollowHistory(h, InRequested);
    ListsFollowHistory(h, InExecuted);
    ListsFollowHistory(h, w);
    ReportedTo(h, w);
  }

  lemma AppendedTo(s: Lists, u: Lists, w: Which)
    ensures ListOf(Append(s, u), w) == ListOf(s, w) + ListOf(u, w)
  {
  }

  /** Missing records keep their order and number: the missing ones of two lists are those of each. */
  lemma {:induction false} MissingConcat(l: seq<Record>, m: seq<Record>, executed: seq<Record>)
    ensures Missing(l + m, executed) == Missing(l, executed) + Missing(m, executed)
  {
    hide Occurs;
    if l == [] {
      assert l + m == m;
    } else {
      assert (l + m)[1..] == l[1..] + m;
      MissingConcat(l[1..], m, executed);
    }
  }

  // ---- One record per test case ------------------------------------------------------------------------

  /** No two entries of a list carry the same full name. */
  predicate UniqueNames(l: seq<Record>) {
    forall i, j :: 0 <= i < j < |l| ==> l[i].FullName() != l[j].FullName()
  }

  lemma {:induction false} WithoutHasNot(l: seq<Record>, name: string)
    ensures !Occurs(name, Without(l, name))
    ensures forall other :: Occurs(other, Without(l, name)) ==> Occurs(other, l)
  {
    if l != [] {
      WithoutHasNot(l[1..], name);
      var rest := Without(l[1..], name);
      forall other | Occurs(other, Without(l, name))
        ensures Occurs(other, l)
      {
        if l[0].FullName() != other {
          assert Occurs(other, rest);
          assert Occurs(other, l[1..]);
          var i :| 0 <= i < |l[1..]| && l[1..][i].FullName() == other;
          assert l[i + 1].FullName() == other;
        }
      }
    }
  }

  lemma {:induction false} WithoutKeepsUnique(l: seq<Record>, name: string)
    requires UniqueNames(l)
    ensures UniqueNames(Without(l, name))
  {
    if l != [] {
      var first, rest := l[0], Without(l[1..], name);
      WithoutKeepsUnique(l[1..], name);
      WithoutHasNot(l[1..], name);
      assert !Occurs(first.FullName(), rest) by {
        assert !Occurs(first.FullName(), l[1..]);
      }
      forall i | 0 <= i < |rest|
        ensures rest[i].FullName() != first.FullName()
      {
        assert !Occurs(first.FullName(), rest);
      }
    }
  }

  /** Every list holds, of the records named like `r`, only `r` itself. */
  predicate OnlyRecordNamed(l: seq<Record>, r: Record) {
    forall i :: 0 <= i < |l| && l[i].FullName() == r.FullName() ==> l[i] == r
  }

  lemma AppendedAlone(l: seq<Record>, r: Record)
    ensures var m := Without(l, r.FullName());
            OnlyRecordNamed(m, r) && OnlyRecordNamed(m + [r], r) && Count(m, r) == 0 && Count(m + [r], r) == 1
  {
    var m := Without(l, r.FullName());
    WithoutHasNot(l, r.FullName());
    assert forall i :: 0 <= i < |m| ==> m[i].FullName() != r.FullName() by {
      assert !Occurs(r.FullName(), m);
    }
    CountWithout(l, r.FullName(), r);
    CountAppend(m, [r], r);
  }

  /** Index of the list an outcome selects: passed, failed, skipped, error. */
  function Bucket(outcome: Option<Outcome>): nat {
    match outcome
    case Some(Pass) => 0
    case Some(Fail) => 1
    case Some(Skip) => 2
    case _ => 3
  }

  function Buckets(s: Lists): seq<seq<Record>> {
    [s.passed, s.failed, s.skipped, s.error]
  }

  /**
    After a record is added it is the only one of its name in any list: once among the
    executed, once in the list of its outcome, and nowhere else; it is no longer requested.
   */
  lemma AddIsExclusive(s: Lists, r: Record, outcome: Option<Outcome>)
    ensures var t := Add(s, r, outcome);
            && OnlyRecordNamed(t.executed, r) && Count(t.executed, r) == 1
            && (forall b :: 0 <= b < 4 ==>
                  OnlyRecordNamed(Buckets(t)[b], r) && Count(Buckets(t)[b], r) == if b == Bucket(outcome) then 1 else 0)
            && OnlyRecordNamed(t.requested, r) && Count(t.requested, r) == 0
  {
    hide Without;
    hide OnlyRecordNamed;
    hide Count;
    AppendedAlone(s.executed, r);
    AppendedAlone(s.requested, r);
    AppendedAlone(s.passed, r);
    AppendedAlone(s.failed, r);
    AppendedAlone(s.skipped, r);
    AppendedAlone(s.error, r);
  }

  /** Histories made of requests, additions and removals only. */
  predicate AddsAndRemoves(h: History) {
    match h
    case New => true
    case Requested(b, _) => AddsAndRemoves(b)
    case Added(b, _, _) => AddsAndRemoves(b)
    case Removed(b, _) => AddsAndRemoves(b)
    case _ => false
  }

  /**
    Under additions and removals alone, every test case is executed at most once, nothing is
    reported, and each executed record is in exactly one outcome list, exactly once.
   */
  lemma {:induction false} ExecutedOnce(h: History)
    requires AddsAndRemoves(h)
    ensures UniqueNames(Eval(h).executed)
    ensures Eval(h).reported == []
    decreases h
  {
    hide Without;
    hide Occurs;
    hide UniqueNames;
    NoRecords();
    match h
    case New =>
    case Requested(b, _) => ExecutedOnce(b);
    case Removed(b, name) =>
      ExecutedOnce(b);
      WithoutKeepsUnique(Eval(b).executed, name);
      WithoutNothing(name);
    case Added(b, r, _) =>
      ExecutedOnce(b);
      WithoutKeepsUnique(Eval(b).executed, r.FullName());
      WithoutHasNot(Eval(b).executed, r.FullName());
      AppendUniqueIff(Without(Eval(b).executed, r.FullName()), r);
      WithoutNothing(r.FullName());
  }

  lemma NoRecords()
    ensures UniqueNames([])
  {
  }

  lemma WithoutNothing(name: string)
    ensures Without([], name) == []
  {
  }

  /** Under additions and removals alone, each executed record is in exactly one outcome list, exactly once. */
  lemma ExactlyOneBucket(h: History, r: Record)
    requires AddsAndRemoves(h)
    ensures var s := Eval(h);
            && Count(s.executed, r) <= 1
            && Count(s.passed, r) + Count(s.failed, r) + Count(s.skipped, r) + Count(s.error, r) == Count(s.executed, r)
  {
    AlwaysConserved(h);
    ExecutedOnce(h);
    CountUnique(Eval(h).executed, r);
    assert Surplus(Eval(h), r) == 0;
  }

  lemma {:induction false} CountUnique(l: seq<Record>, r: Record)
    requires UniqueNames(l)
    ensures Count(l, r) <= 1
    decreases |l|
  {
    if l != [] {
      var last := |l| - 1;
      assert l == l[..last] + [l[last]];
      CountAppend(l[..last], [l[last]], r);
      CountUnique(l[..last], r);
      if l[last] == r {
        assert r !in l[..last];
      }
    }
  }

  // ---- When executed names stay unique ------------------------------------------------------------------

  /** How many records of a list carry a name. */
  function Named(l: seq<Record>, name: string): nat {
    if l == [] then 0 else Named(l[..|l| - 1], name) + if l[|l| - 1].FullName() == name then 1 else 0
  }

  lemma {:induction false} NamedAppend(l: seq<Record>, m: seq<Record>, name: string)
    ensures Named(l + m, name) == Named(l, name) + Named(m, name)
    decreases |m|
  {
    if m == [] {
      assert l + m == l;
    } else {
      assert (l + m)[..|l + m| - 1] == l + m[..|m| - 1];
      NamedAppend(l, m[..|m| - 1], name);
    }
  }

  lemma {:induction false} NamedWithout(l: seq<Record>, gone: string, name: string)
    ensures Named(Without(l, gone), name) == if name == gone then 0 else Named(l, name)
  {
    if l != [] {
      var front := if l[0].FullName() == gone then [] else [l[0]];
      assert l == [l[0]] + l[1..];
      NamedAppend([l[0]], l[1..], name);
      NamedAppend(front, Without(l[1..], gone), name);
      NamedWithout(l[1..], gone, name);
      NamedOne(l[0], name);
    }
  }

  lemma NamedOne(r: Record, name: string)
    ensures Named([], name) == 0 && Named([r], name) == if r.FullName() == name then 1 else 0
  {
    assert [r][..0] == [];
  }

  lemma {:induction false} NamedIffOccurs(l: seq<Record>, name: string)
    ensures Named(l, name) > 0 <==> Occurs(name, l)
    decreases |l|
  {
    if l != [] {
      var last := |l| - 1;
      NamedIffOccurs(l[..last], name);
      if Occurs(name, l) && l[last].FullName() != name {
        var i :| 0 <= i < |l| && l[i].FullName() == name;
        assert l[..last][i].FullName() == name;
      } else if Occurs(name, l[..last]) {
        var i :| 0 <= i < last && l[..last][i].FullName() == name;
        assert l[i].FullName() == name;
      }
    }
  }

  /** Names are unique exactly if each is carried at most once. */
  lemma {:induction false} UniqueIffNamedOnce(l: seq<Record>)
    ensures UniqueNames(l) <==> forall name :: Named(l, name) <= 1
    decreases |l|
  {
    if l != [] {
      var last := |l| - 1;
      var front, name := l[..last], l[last].FullName();
      UniqueIffNamedOnce(front);
      NamedIffOccurs(front, name);
      AppendUniqueIff(front, l[last]);
      assert l == front + [l[last]];
      if UniqueNames(front) && !Occurs(name, front) {
        forall other
          ensures Named(l, other) <= 1
        {
          assert Named(front, other) <= 1 && Named(front, name) == 0;
        }
      } else if UniqueNames(front) {
        assert Named(l, name) == Named(front, name) + 1 > 1;
      } else {
        var other :| Named(front, other) > 1;
        assert Named(l, other) > 1;
      }
    }
  }

  lemma AppendUniqueIff(l: seq<Record>, r: Record)
    ensures UniqueNames(l + [r]) <==> UniqueNames(l) && !Occurs(r.FullName(), l)
  {
    var m := l + [r];
    assert forall i :: 0 <= i < |l| ==> m[i] == l[i];
    if UniqueNames(m) {
      assert forall i :: 0 <= i < |l| ==> m[i].FullName() != m[|l|].FullName();
    }
  }

  /** Filing a record keeps executed names unique exactly if they were and none is the record's. */
  lemma FileUniqueIff(s: Lists, r: Record, outcome: Option<Outcome>)
    ensures UniqueNames(File(s, r, outcome).executed) <==> UniqueNames(s.executed) && !Occurs(r.FullName(), s.executed)
  {
    AppendUniqueIff(s.executed, r);
  }

  /** Merging keeps executed names unique exactly if both sides' are and they share none. */
  lemma MergeUniqueIff(s: Lists, t: Lists)
    ensures UniqueNames(Merge(s, t).executed) <==>
            && UniqueNames(s.executed) && UniqueNames(t.executed)
            && forall i :: 0 <= i < |t.executed| ==> !Occurs(t.executed[i].FullName(), s.executed)
  {
    var l, m := s.executed, t.executed;
    var all := l + m;
    assert forall i :: 0 <= i < |l| ==> all[i] == l[i];
    assert forall i :: 0 <= i < |m| ==> all[|l| + i] == m[i];
    if UniqueNames(all) {
      forall i, j | 0 <= i < j < |m|
        ensures m[i].FullName() != m[j].FullName()
      {
        assert all[|l| + i].FullName() != all[|l| + j].FullName();
      }
      forall i | 0 <= i < |m|
        ensures !Occurs(m[i].FullName(), l)
      {
        assert forall k :: 0 <= k < |l| ==> all[k].FullName() != all[|l| + i].FullName();
      }
    }
  }

  /** How often a history executes a name: class results and merges add up, additions and removals start again. */
  function Executions(h: History, name: string): nat {
    match h
    case New => 0
    case Requested(b, _) => Executions(b, name)
    case Added(b, r, _) => if r.FullName() == name then 1 else Executions(b, name)
    case Removed(b, gone) => if gone == name then 0 else Executions(b, name)
    case ClassPassed(b, r) => Executions(b, name) + if r.FullName() == name then 1 else 0
    case ClassSkipped(b, r) => Executions(b, name) + if r.FullName() == name then 1 else 0
    case Reported(b) => Executions(b, name)
    case Merged(l, r) => Executions(l, name) + Executions(r, name)
  }

  lemma {:induction false} ExecutionsCount(h: History, name: string)
    ensures Named(Eval(h).executed, name) == Executions(h, name)
    decreases h
  {
    hide Named;
    hide Without;
    match h
    case New => NamedOne(Record(0, "", ""), name);
    case Requested(b, _) => ExecutionsCount(b, name);
    case Added(b, r, o) =>
      ExecutionsCount(b, name);
      NamedWithout(Eval(b).executed, r.FullName(), name);
      NamedFiled(Remove(Eval(b), r.FullName()), r, o, name);
    case Removed(b, gone) =>
      ExecutionsCount(b, name);
      NamedWithout(Eval(b).executed, gone, name);
    case ClassPassed(b, r) =>
      ExecutionsCount(b, name);
      NamedFiled(Eval(b), r, Some(Pass), name);
    case ClassSkipped(b, r) =>
      ExecutionsCount(b, name);
      NamedFiled(Eval(b), r, Some(Skip), name);
    case Reported(b) => ExecutionsCount(b, name);
    case Merged(l, r) =>
      ExecutionsCount(l, name);
      ExecutionsCount(r, name);
      NamedAppend(Eval(l).executed, Eval(r).executed, name);
  }

  lemma NamedFiled(s: Lists, r: Record, o: Option<Outcome>, name: string)
    ensures Named(File(s, r, o).executed, name) == Named(s.executed, name) + if r.FullName() == name then 1 else 0
  {
    hide Named;
    NamedAppend(s.executed, [r], name);
    NamedOne(r, name);
  }

  /** After any history at all, executed names are unique if and only if the history executes no name twice. */
  lemma UniqueIffExecutedOnce(h: History)
    ensures UniqueNames(Eval(h).executed) <==> forall name :: Executions(h, name) <= 1
  {
    hide UniqueNames;
    hide Named;
    hide Executions;
    hide Eval;
    var l := Eval(h).executed;
    UniqueIffNamedOnce(l);
    if UniqueNames(l) {
      forall name
        ensures Executions(h, name) <= 1
      {
        ExecutionsCount(h, name);
        assert Named(l, name) <= 1;
      }
    } else {
      var name :| Named(l, name) > 1;
      ExecutionsCount(h, name);
    }
  }

  /** Setting up the same class twice files two records of one name: uniqueness needs the restriction. */
  lemma ClassesRepeat(className: string)
    ensures var first, second := Record(0, className, "setup_class"), Record(1, className, "setup_class");
            !UniqueNames(Eval(ClassPassed(ClassPassed(New, first), second)).executed)
  {
    var first, second := Record(0, className, "setup_class"), Record(1, className, "setup_class");
    var once := ClassPassed(New, first);
    assert Eval(New).executed == [];
    assert Eval(once).executed == [first];
    assert Eval(ClassPassed(once, second)).executed == [first, second];
    assert first.FullName() == second.FullName();
    assert [first, second][0].FullName() == [first, second][1].FullName();
  }

  /** Reporting does not mark records as executed, so each further report adds them again. */
  lemma ReportRepeats(s: Lists)
    ensures var missing := Missing(s.requested, s.executed);
            Report(Report(s)).error == s.error + missing + missing
  {
  }

  /** A second report changes nothing if and only if nothing is missing. */
  lemma ReportTwiceIff(s: Lists)
    ensures Report(Report(s)) == Report(s) <==> Missing(s.requested, s.executed) == []
  {
    ReportRepeats(s);
    var missing := Missing(s.requested, s.executed);
    if missing == [] {
      assert s.error + missing + missing == s.error + missing;
      assert s.reported + missing + missing == s.reported + missing;
    } else {
      assert |Report(Report(s)).error| == |Report(s).error| + |missing|;
    }
  }

  /** Nothing is missing if and only if every requested record has an executed namesake. */
  lemma NothingMissingIff(requested: seq<Record>, executed: seq<Record>)
    ensures Missing(requested, executed) == [] <==>
            forall i :: 0 <= i < |requested| ==> Occurs(requested[i].FullName(), executed)
  {
    hide Occurs;
    var missing := Missing(requested, executed);
    if missing == [] {
      forall i | 0 <= i < |requested|
        ensures Occurs(requested[i].FullName(), executed)
      {
        MissingMeaning(requested, executed, requested[i]);
      }
    } else {
      MissingMeaning(requested, executed, missing[0]);
    }
  }

  /** Filtering keeps a list as it is if and only if no record carries the name. */
  lemma {:induction false} WithoutSameIff(l: seq<Record>, name: string)
    ensures |Without(l, name)| <= |l|
    ensures Without(l, name) == l <==> !Occurs(name, l)
  {
    if l != [] {
      WithoutSameIff(l[1..], name);
      assert l == [l[0]] + l[1..];
      if l[0].FullName() == name {
        assert Occurs(name, l);
        assert |Without(l, name)| < |l|;
      } else {
        assert Without(l, name)[1..] == Without(l[1..], name);
        if Occurs(name, l) {
          var i :| 0 <= i < |l| && l[i].FullName() == name;
          assert l[1..][i - 1].FullName() == name;
        } else {
          assert forall i :: 0 <= i < |l[1..]| ==> l[1..][i] == l[i + 1];
        }
      }
    }
  }

  /** Removal drops a requested record, whatever its flag promises. */
  lemma RemovalDropsRequested(r: Record)
    ensures Remove(Request(NO_RESULTS, r), r.FullName()).requested == []
  {
    assert [] + [r] == [r] && [r][1..] == [];
  }

  /** Exactly the requested records without an executed namesake are reported, in order. */
  lemma {:induction false} MissingMeaning(requested: seq<Record>, executed: seq<Record>, r: Record)
    ensures r in Missing(requested, executed) <==> r in requested && !Occurs(r.FullName(), executed)
  {
    if requested != [] {
      MissingMeaning(requested[1..], executed, r);
    }
  }
}
