/**
  The checks made on the hierarchy of tags while a file is walked.  They only report; the
  walk itself does not depend on them.
 */
module GcdaNesting {
  import opened GcovIo

  datatype Diagnostic = InvalidTag(tag: bv32) | BadNesting(tag: bv32)

  /** What is reported for a tag, given the tag met just before it (zero at the start). */
  function Diagnose(previous: bv32, tag: bv32): seq<Diagnostic>
    requires tag != 0
  {
    (if Aligned(tag) then [] else [InvalidTag(tag)]) +
    (if previous != 0 && TagDepth(previous) < TagDepth(tag) && !IsSubtag(previous, tag)
     then [BadNesting(tag)] else [])
  }

  /** All reports for a sequence of tags: each tag is judged against its immediate predecessor. */
  function DiagnoseAll(tags: seq<bv32>): seq<Diagnostic>
    requires 0 !in tags
  {
    if tags == [] then []
    else
      var last := |tags| - 1;
      DiagnoseAll(tags[..last]) + Diagnose(Last(tags[..last]), tags[last])
  }

  /** The mask loop: depth of a tag, and whether the mask consists of whole bytes. */
  method MeasureDepth(tag: bv32) returns (depth: nat, aligned: bool)
    requires tag != 0
    ensures depth == TagDepth(tag)
    ensures aligned == Aligned(tag)
  {
    var mask := TagMask(tag) >> 1;
    depth, aligned := 4, true;
    ghost var zeros := TrailingZeros(tag);
    ghost var left: nat := zeros;
    TagMaskIsOnes(tag);
    OnesByte(left);
    while mask != 0
      invariant depth <= 4 && left < 32 && left == zeros - 8 * (4 - depth)
      invariant mask == Ones(left) && (mask == 0 <==> left == 0)
      invariant aligned
      decreases depth
    {
      OnesByte(left);
      if mask & 0xff != 0xff {
        aligned := false;
        break;
      }
      mask := mask >> 8;
      depth := depth - 1;
      left := left - 8;
      OnesByte(left);
    }
  }

  /** The nesting state: `stack[depth - 1]` is the tag met last. */
  ghost predicate Nested(stack: array<bv32>, depth: nat, last: bv32)
    reads stack
  {
    && stack.Length == 4 && depth <= 4
    && (depth == 0 <==> last == 0)
    && (depth > 0 ==> depth == TagDepth(last) && stack[depth - 1] == last)
  }

  /** Judges a tag against the one met before it and makes it the last one met. */
  method CheckTag(stack: array<bv32>, depth: nat, tag: bv32, ghost last: bv32)
    returns (newDepth: nat, report: seq<Diagnostic>)
    requires tag != 0 && Nested(stack, depth, last)
    modifies stack
    ensures Nested(stack, newDepth, tag)
    ensures report == Diagnose(last, tag)
  {
    var tagDepth, aligned := MeasureDepth(tag);
    report := [];
    if !aligned {
      report := report + [InvalidTag(tag)];
    }
    if depth != 0 && depth < tagDepth && !IsSubtag(stack[depth - 1], tag) {
      report := report + [BadNesting(tag)];
    }
    newDepth := tagDepth;
    stack[newDepth - 1] := tag;
  }

  function Last(tags: seq<bv32>): bv32 {
    if tags == [] then 0 else tags[|tags| - 1]
  }

  lemma DiagnoseNext(tags: seq<bv32>, tag: bv32)
    requires 0 !in tags && tag != 0
    ensures 0 !in tags + [tag]
    ensures DiagnoseAll(tags + [tag]) == DiagnoseAll(tags) + Diagnose(Last(tags), tag)
  {
    hide Diagnose;
    var all := tags + [tag];
    assert all[..|tags|] == tags && all[|tags|] == tag;
    LastOfPrefix(all, |tags|);
  }

  lemma LastOfPrefix(tags: seq<bv32>, i: nat)
    requires i <= |tags|
    ensures Last(tags[..i]) == if i == 0 then 0 else tags[i - 1]
  {
  }

  // ---- When a report is due --------------------------------------------------------------------------

  /** The trailing zeros of the tag do not fill whole bytes. */
  predicate Misaligned(tag: bv32)
    requires tag != 0
  {
    TrailingZeros(tag) % 8 != 0
  }

  /** One byte deeper than `previous`, and equal to it above the lowest set bit of `previous`. */
  predicate Below(previous: bv32, tag: bv32)
    requires previous != 0 && tag != 0
  {
    && TrailingZeros(previous) == TrailingZeros(tag) + 8
    && EqualOutside(tag, previous, Ones(TrailingZeros(previous) + 1))
  }

  /** A tag with fewer whole zero bytes than its predecessor that is not right below it. */
  predicate Misnested(previous: bv32, tag: bv32)
    requires previous != 0 && tag != 0
  {
    TrailingZeros(tag) / 8 < TrailingZeros(previous) / 8 && !Below(previous, tag)
  }

  /** Tag `i` is misnested under the one before it. */
  predicate MisnestedAt(tags: seq<bv32>, i: nat)
    requires 0 !in tags && i < |tags|
  {
    i > 0 && Misnested(tags[i - 1], tags[i])
  }

  lemma SubtagIffBelow(previous: bv32, tag: bv32)
    requires previous != 0 && tag != 0
    ensures IsSubtag(previous, tag) <==> Below(previous, tag)
  {
    hide TrailingZeros;
    hide Ones;
    hide IsSubtag;
    hide AgreeOutside;
    hide EqualOutside;
    SubtagMeaning(previous, tag);
    AgreeOutsideMeaning(tag, previous, Ones(TrailingZeros(previous) + 1));
  }

  /** The reports for one tag: at most one of each kind, about that tag, each exactly when it is due. */
  lemma DiagnoseMeaning(previous: bv32, tag: bv32)
    requires tag != 0
    ensures Diagnose(previous, tag) ==
            (if Misaligned(tag) then [InvalidTag(tag)] else [])
            + (if previous != 0 && Misnested(previous, tag) then [BadNesting(tag)] else [])
  {
    hide TrailingZeros;
    hide IsSubtag;
    hide Below;
    if previous != 0 {
      SubtagIffBelow(previous, tag);
      DepthFromZeros(previous, tag);
    }
  }

  lemma DepthFromZeros(previous: bv32, tag: bv32)
    requires previous != 0 && tag != 0
    ensures TagDepth(previous) < TagDepth(tag) <==> TrailingZeros(tag) / 8 < TrailingZeros(previous) / 8
  {
    hide TrailingZeros;
  }

  ghost predicate SomeMisaligned(tags: seq<bv32>, tag: bv32)
    requires 0 !in tags
  {
    exists i :: 0 <= i < |tags| && tags[i] == tag && Misaligned(tags[i])
  }

  ghost predicate SomeMisnested(tags: seq<bv32>, tag: bv32)
    requires 0 !in tags
  {
    exists i :: 0 <= i < |tags| && tags[i] == tag && MisnestedAt(tags, i)
  }

  lemma SomeMisalignedNext(front: seq<bv32>, last: bv32, tag: bv32)
    requires 0 !in front && last != 0
    ensures 0 !in front + [last]
    ensures SomeMisaligned(front + [last], tag) <==> SomeMisaligned(front, tag) || (last == tag && Misaligned(tag))
  {
    hide Misaligned;
    var tags, n := front + [last], |front|;
    assert tags[n] == last;
    if SomeMisaligned(front, tag) {
      var i :| 0 <= i < n && front[i] == tag && Misaligned(front[i]);
      assert tags[i] == front[i];
    }
    if SomeMisaligned(tags, tag) {
      var i :| 0 <= i < |tags| && tags[i] == tag && Misaligned(tags[i]);
      assert i < n ==> front[i] == tags[i];
    }
  }

  lemma MisnestedAtNext(front: seq<bv32>, last: bv32, i: nat)
    requires 0 !in front && last != 0 && i <= |front|
    ensures 0 !in front + [last]
    ensures i < |front| ==> (MisnestedAt(front + [last], i) <==> MisnestedAt(front, i))
    ensures i == |front| ==> (MisnestedAt(front + [last], i) <==> front != [] && Misnested(Last(front), last))
  {
    hide Misnested;
    var tags := front + [last];
    assert i < |front| ==> tags[i] == front[i];
    assert i > 0 ==> tags[i - 1] == front[i - 1];
  }

  lemma SomeMisnestedNext(front: seq<bv32>, last: bv32, tag: bv32)
    requires 0 !in front && last != 0
    ensures 0 !in front + [last]
    ensures SomeMisnested(front + [last], tag) <==>
            SomeMisnested(front, tag) || (last == tag && front != [] && Misnested(Last(front), tag))
  {
    hide Misnested;
    hide MisnestedAt;
    var tags, n := front + [last], |front|;
    assert tags[n] == last;
    MisnestedAtNext(front, last, n);
    if SomeMisnested(front, tag) {
      var i :| 0 <= i < n && front[i] == tag && MisnestedAt(front, i);
      MisnestedAtNext(front, last, i);
      assert tags[i] == front[i];
    }
    if SomeMisnested(tags, tag) {
      var i :| 0 <= i < |tags| && tags[i] == tag && MisnestedAt(tags, i);
      MisnestedAtNext(front, last, i);
      assert i < n ==> front[i] == tags[i];
    }
  }

  /** What a report on `tag` says about the tag just met. */
  lemma DiagnoseMembers(previous: bv32, last: bv32, tag: bv32)
    requires last != 0
    ensures InvalidTag(tag) in Diagnose(previous, last) <==> last == tag && Misaligned(tag)
    ensures BadNesting(tag) in Diagnose(previous, last) <==> last == tag && previous != 0 && Misnested(previous, tag)
  {
    hide Misaligned;
    hide Misnested;
    hide Diagnose;
    DiagnoseMeaning(previous, last);
  }

  /** After any walk: which tags are reported, and as what. */
  lemma {:induction false} ReportsAfter(tags: seq<bv32>, tag: bv32)
    requires 0 !in tags
    ensures InvalidTag(tag) in DiagnoseAll(tags) <==> SomeMisaligned(tags, tag)
    ensures BadNesting(tag) in DiagnoseAll(tags) <==> SomeMisnested(tags, tag)
    decreases |tags|
  {
    if tags != [] {
      hide Misaligned;
      hide Misnested;
      hide Diagnose;
      hide SomeMisaligned;
      hide SomeMisnested;
      var front, last := tags[..|tags| - 1], tags[|tags| - 1];
      assert tags == front + [last];
      ReportsAfter(front, tag);
      SomeMisalignedNext(front, last, tag);
      SomeMisnestedNext(front, last, tag);
      DiagnoseMembers(Last(front), last, tag);
      LastIsZero(front);
    }
  }

  lemma LastIsZero(tags: seq<bv32>)
    requires 0 !in tags
    ensures Last(tags) == 0 <==> tags == []
  {
  }

  /** Nothing is reported if and only if every tag is aligned and every deeper tag lies right below its predecessor. */
  lemma SilentIffWellNested(tags: seq<bv32>)
    requires 0 !in tags
    ensures DiagnoseAll(tags) == [] <==>
            forall i :: 0 <= i < |tags| ==> !Misaligned(tags[i]) && !MisnestedAt(tags, i)
  {
    hide Misaligned;
    hide MisnestedAt;
    hide DiagnoseAll;
    var log := DiagnoseAll(tags);
    if log != [] {
      ReportsAfter(tags, log[0].tag);
      assert log[0] in log;
      assert log[0] == InvalidTag(log[0].tag) || log[0] == BadNesting(log[0].tag);
    }
    forall i | 0 <= i < |tags|
      ensures Misaligned(tags[i]) || MisnestedAt(tags, i) ==> log != []
    {
      ReportsAfter(tags, tags[i]);
    }
  }

  /** A function record followed by its counters is silent; a counter below another function's tag is not. */
  lemma CountersBelowFunction()
    ensures DiagnoseAll([0x0100_0000, 0x01a1_0000]) == []
    ensures DiagnoseAll([0x0100_0000, 0x02a1_0000]) == [BadNesting(0x02a1_0000)]
  {
    hide Diagnose;
    var f, c, d := 0x0100_0000 as bv32, 0x01a1_0000 as bv32, 0x02a1_0000 as bv32;
    OnesTable();
    ZerosOf(f, 24);
    ZerosOf(c, 16);
    ZerosOf(d, 16);
    DiagnoseMeaning(0, f);
    DiagnoseMeaning(f, c);
    DiagnoseMeaning(f, d);
    DiagnoseNext([], f);
    DiagnoseNext([f], c);
    DiagnoseNext([f], d);
    assert [] + [f] == [f] && [f] + [c] == [f, c] && [f] + [d] == [f, d];
  }

  lemma ZerosOf(t: bv32, k: nat)
    requires t != 0 && k < 32 && LowestSetBitIs(t, k)
    ensures TrailingZeros(t) == k
  {
    hide TrailingZeros;
    hide Ones;
    hide TagMask;
    hide LowestSetBitIs;
    MaskFromLowestBit(t, k);
    TagMaskIsOnes(t);
    OnesInjective(k + 1, TrailingZeros(t) + 1);
  }
}
