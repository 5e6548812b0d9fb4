/**
  The result object: its lists are changed in place by nested loops.
 */
module TestResultObject {
  import opened Options
  import opened TestResults

  /** Indices of the records that are the same test case as `record`, ascending. */
  method MatchingIndices(l: seq<Record>, record: Record) returns (indices: seq<nat>)
    ensures forall k :: 0 <= k < |indices| ==> indices[k] < |l|
    ensures forall j, k :: 0 <= j < k < |indices| ==> indices[j] < indices[k]
    ensures forall i :: 0 <= i < |l| ==> (l[i].IsSameTestCase(record) <==> i in indices)
  {
    indices := [];
    for i := 0 to |l|
      invariant forall k :: 0 <= k < |indices| ==> indices[k] < i
      invariant forall j, k :: 0 <= j < k < |indices| ==> indices[j] < indices[k]
      invariant forall m :: 0 <= m < i ==> (l[m].IsSameTestCase(record) <==> m in indices)
    {
      if l[i].IsSameTestCase(record) {
        indices := indices + [i];
      }
    }
  }

  /** Deletes the matching records from the highest index down, which is a filter. */
  method DeleteMatching(l: seq<Record>, record: Record) returns (kept: seq<Record>)
    ensures kept == Without(l, record.FullName())
  {
    ghost var name := record.FullName();
    var indices := MatchingIndices(l, record);
    kept := l;
    var k := |indices|;
    ghost var cut := |l|;  // everything from here on has been filtered
    assert l[..cut] + Without(l[cut..], name) == l;
    while k > 0
      invariant 0 <= k <= |indices| && cut <= |l|
      invariant forall j :: 0 <= j < k ==> indices[j] < cut
      invariant forall j :: k <= j < |indices| ==> indices[j] >= cut
      invariant kept == l[..cut] + Without(l[cut..], name)
    {
      k := k - 1;
      var i := indices[k];
      GapKept(l, name, i, cut, indices, k);
      kept := kept[..i] + kept[i + 1..];
      cut := i;
    }
    GapKept0(l, name, cut, indices);
  }

  /** Between two neighbouring matches nothing is dropped. */
  lemma GapKept(l: seq<Record>, name: string, i: nat, cut: nat, indices: seq<nat>, k: nat)
    requires i < cut <= |l| && k < |indices| && indices[k] == i
    requires forall j, m :: 0 <= j < m < |indices| ==> indices[j] < indices[m]
    requires forall j :: k < j < |indices| ==> indices[j] >= cut
    requires forall m :: 0 <= m < |l| ==> (l[m].FullName() == name <==> m in indices)
    ensures var all := l[..cut] + Without(l[cut..], name);
            all[..i] + all[i + 1..] == l[..i] + Without(l[i..], name)
  {
    hide Without;
    var gap := l[i + 1..cut];
    forall m | 0 <= m < |gap|
      ensures gap[m].FullName() != name
    {
      assert (i + 1 + m) !in indices;
    }
    assert indices[k] in indices;
    WithoutUntouched(gap, name);
    GapFiltered(l[i], gap, l[cut..], name);
    assert l[i..] == [l[i]] + gap + l[cut..];
    var all := l[..cut] + Without(l[cut..], name);
    assert all[i + 1..] == gap + Without(l[cut..], name);
    assert all[..i] == l[..i];
  }

  lemma GapFiltered(r: Record, gap: seq<Record>, rest: seq<Record>, name: string)
    requires r.FullName() == name && Without(gap, name) == gap
    ensures Without([r] + gap + rest, name) == gap + Without(rest, name)
  {
    assert [r] + gap + rest == [r] + (gap + rest);
    assert ([r] + (gap + rest))[1..] == gap + rest;
    WithoutPrefix(gap, rest, name);
    assert [] + Without(gap + rest, name) == Without(gap + rest, name);
  }

  lemma GapKept0(l: seq<Record>, name: string, cut: nat, indices: seq<nat>)
    requires cut <= |l|
    requires forall j :: 0 <= j < |indices| ==> indices[j] >= cut
    requires forall m :: 0 <= m < |l| ==> (l[m].FullName() == name <==> m in indices)
    ensures l[..cut] + Without(l[cut..], name) == Without(l, name)
  {
    forall m | 0 <= m < cut
      ensures l[..cut][m].FullName() != name
    {
      assert m !in indices;
    }
    WithoutUntouched(l[..cut], name);
    WithoutPrefix(l[..cut], l[cut..], name);
    assert l == l[..cut] + l[cut..];
  }

  lemma {:induction false} WithoutPrefix(l: seq<Record>, m: seq<Record>, name: string)
    ensures Without(l + m, name) == Without(l, name) + Without(m, name)
  {
    if l == [] {
      assert l + m == m;
    } else {
      var first := if l[0].FullName() == name then [] else [l[0]];
      assert (l + m)[0] == l[0] && (l + m)[1..] == l[1..] + m;
      WithoutPrefix(l[1..], m, name);
      assert first + (Without(l[1..], name) + Without(m, name)) == (first + Without(l[1..], name)) + Without(m, name);
    }
  }

  lemma {:induction false} WithoutUntouched(l: seq<Record>, name: string)
    requires forall i :: 0 <= i < |l| ==> l[i].FullName() != name
    ensures Without(l, name) == l
  {
    if l != [] {
      WithoutUntouched(l[1..], name);
      assert l == [l[0]] + l[1..];
    }
  }

  lemma AppendAssociates(l: seq<Record>, r: Record, rest: seq<Record>)
    ensures l + ([r] + rest) == (l + [r]) + rest
  {
  }

  lemma MissingNext(requested: seq<Record>, executed: seq<Record>, i: nat)
    requires i < |requested|
    ensures Missing(requested[i..], executed) ==
            if Occurs(requested[i].FullName(), executed) then Missing(requested[i + 1..], executed)
            else [requested[i]] + Missing(requested[i + 1..], executed)
  {
    hide Occurs;
    assert requested[i..][0] == requested[i] && requested[i..][1..] == requested[i + 1..];
    assert [] + Missing(requested[i + 1..], executed) == Missing(requested[i + 1..], executed);
  }

  class TestResult {
    var requested: seq<Record>
    var failed: seq<Record>
    var executed: seq<Record>
    var passed: seq<Record>
    var skipped: seq<Record>
    var error: seq<Record>
    ghost var reported: seq<Record>
    var moduleName: Option<string>
    var moduleTimestamp: Option<int>
    var classErrors: seq<string>

    ghost function Value(): Lists
      reads this
    {
      Lists(requested, failed, executed, passed, skipped, error, reported)
    }

    constructor ()
      ensures Value() == NO_RESULTS && moduleName == None && moduleTimestamp == None && classErrors == []
    {
      requested, failed, executed, passed, skipped, error, reported := [], [], [], [], [], [], [];
      moduleName, moduleTimestamp, classErrors := None, None, [];
    }

    /** `removeRequested` is accepted and ignored: requested records are always removed. */
    method RemoveRecord(record: Record, removeRequested: bool)
      modifies this`requested, this`failed, this`executed, this`passed, this`skipped, this`error, this`reported
      ensures Value() == Remove(old(Value()), record.FullName())
      ensures requested == old(requested) <==> !Occurs(record.FullName(), old(requested))
    {
      WithoutSameIff(requested, record.FullName());
      requested := DeleteMatching(requested, record);
      failed := DeleteMatching(failed, record);
      executed := DeleteMatching(executed, record);
      passed := DeleteMatching(passed, record);
      skipped := DeleteMatching(skipped, record);
      error := DeleteMatching(error, record);
      reported := Without(reported, record.FullName());
    }

    method AddRecord(record: Record, outcome: Option<Outcome>)
      modifies this`requested, this`failed, this`executed, this`passed, this`skipped, this`error, this`reported
      ensures Value() == Add(old(Value()), record, outcome)
    {
      RemoveRecord(record, false);
      executed := executed + [record];
      if outcome == Some(Fail) {
        failed := failed + [record];
      } else if outcome == Some(Skip) {
        skipped := skipped + [record];
      } else if outcome == Some(Pass) {
        passed := passed + [record];
      } else {
        error := error + [record];
      }
    }

    method WasExecuted(record: Record) returns (found: bool)
      ensures found <==> Occurs(record.FullName(), executed)
    {
      for j := 0 to |executed|
        invariant forall k :: 0 <= k < j ==> executed[k].FullName() != record.FullName()
      {
        if record.IsSameTestCase(executed[j]) { return true; }
      }
      return false;
    }

    method GetNonExecutedRecords() returns (res: seq<Record>)
      ensures res == Missing(requested, executed)
    {
      hide Occurs;
      res := [];
      assert requested[0..] == requested;
      for i := 0 to |requested|
        invariant Missing(requested, executed) == res + Missing(requested[i..], executed)
      {
        var found := WasExecuted(requested[i]);
        MissingNext(requested, executed, i);
        if !found {
          AppendAssociates(res, requested[i], Missing(requested[i + 1..], executed));
          res := res + [requested[i]];
        }
      }
    }

    method ReportNonExecutedRecord()
      modifies this`error, this`reported
      ensures Value() == Report(old(Value()))
    {
      var missing := GetNonExecutedRecords();
      ghost var before := error;
      for i := 0 to |missing|
        invariant error == before + missing[..i]
        invariant unchanged(`reported)
      {
        error := error + [missing[i]];
        assert missing[..i] + [missing[i]] == missing[..i + 1];
      }
      assert missing[..|missing|] == missing;
      reported := reported + missing;
    }

    method PassClass(record: Record)
      modifies this`executed, this`passed
      ensures Value() == File(old(Value()), record, Some(Pass))
    {
      executed := executed + [record];
      passed := passed + [record];
    }

    method SkipClass(record: Record)
      modifies this`executed, this`skipped
      ensures Value() == File(old(Value()), record, Some(Skip))
    {
      executed := executed + [record];
      skipped := skipped + [record];
    }

    /**
      The `+` operator.  The right operand reports its missing records first, whatever comes
      of the sum; differing module names raise an error, and the smaller timestamp is kept.
     */
    method Plus(other: TestResult) returns (sum: Option<TestResult>)
      modifies other`error, other`reported
      ensures other.Value() == Report(old(other.Value()))
      ensures sum == None <==> moduleName.Some? && other.moduleName.Some? && moduleName != other.moduleName
      ensures sum.Some? ==>
                && fresh(sum.value) && sum.value.Value() == Append(Value(), other.Value())
                && sum.value.moduleName == (if moduleName.Some? then moduleName else other.moduleName)
                && sum.value.moduleTimestamp == Earlier(moduleTimestamp, other.moduleTimestamp)
                && sum.value.classErrors == classErrors + other.classErrors
      ensures sum.Some? && this != other ==> sum.value.Value() == Merge(old(Value()), old(other.Value()))
      ensures sum.Some? && this == other ==> sum.value.Value() == Merge(Report(old(Value())), old(Value()))
    {
      hide Report;
      other.ReportNonExecutedRecord();
      if moduleName.Some? && other.moduleName.Some? && moduleName != other.moduleName { return None; }
      var s := new TestResult.Joined(this, other);
      return Some(s);
    }

    constructor Joined(l: TestResult, r: TestResult)
      ensures Value() == Append(l.Value(), r.Value())
      ensures moduleName == if l.moduleName.Some? then l.moduleName else r.moduleName
      ensures moduleTimestamp == Earlier(l.moduleTimestamp, r.moduleTimestamp)
      ensures classErrors == l.classErrors + r.classErrors
    {
      requested := l.requested + r.requested;
      failed := l.failed + r.failed;
      executed := l.executed + r.executed;
      passed := l.passed + r.passed;
      skipped := l.skipped + r.skipped;
      error := l.error + r.error;
      reported := l.reported + r.reported;
      moduleName := if l.moduleName.Some? then l.moduleName else r.moduleName;
      moduleTimestamp := Earlier(l.moduleTimestamp, r.moduleTimestamp);
      classErrors := l.classErrors + r.classErrors;
    }
  }

  /** The earlier timestamp is one of those given and at most both. */
  lemma EarlierIsSmallest(l: Option<int>, r: Option<int>)
    ensures Earlier(l, r) == None <==> l == None && r == None
    ensures Earlier(l, r) == l || Earlier(l, r) == r
    ensures l.Some? ==> Earlier(l, r).value <= l.value
    ensures r.Some? ==> Earlier(l, r).value <= r.value
  {
  }

  function Earlier(l: Option<int>, r: Option<int>): Option<int> {
    if l == None then r
    else if r == None then l
    else if l.value < r.value then l else r
  }
}
