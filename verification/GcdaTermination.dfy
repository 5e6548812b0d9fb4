/**
  When the record walk ends.  Record ends wrap modulo 2^30 words, so a file can send the
  walk backwards; it then ends exactly when no position is visited twice, which a caller
  can decide by following at most one record per word of the file.
 */
module GcdaTermination {
  import opened Options
  import opened GcovIo
  import opened GcdaCursor
  import opened GcdaWalk

  /** The position at which iteration `n` starts, if the walk gets that far. */
  function PositionOf(words: seq<nat>, pos: nat, n: nat): Option<nat>
    decreases n
  {
    if n == 0 then Some(pos)
    else match StepAt(words, pos)
      case Stop => None
      case Visit(_, next) => PositionOf(words, next, n - 1)
  }

  /** Iterations compose: continuing from the position of iteration `m`. */
  lemma {:induction false} PositionCompose(words: seq<nat>, pos: nat, m: nat, n: nat)
    ensures PositionOf(words, pos, m + n) ==
            match PositionOf(words, pos, m)
            case None => None
            case Some(p) => PositionOf(words, p, n)
    decreases m
  {
    if m > 0 {
      match StepAt(words, pos)
      case Stop =>
      case Visit(_, next) => PositionCompose(words, next, m - 1, n);
    }
  }

  lemma {:induction false} HaltsIffPositionEnds(words: seq<nat>, pos: nat, n: nat)
    ensures HaltsWithin(words, pos, n) <==> PositionOf(words, pos, n) == None
    decreases n
  {
    if n > 0 {
      match StepAt(words, pos)
      case Stop =>
      case Visit(_, next) => HaltsIffPositionEnds(words, next, n - 1);
    }
  }

  lemma {:induction false} HaltsMonotone(words: seq<nat>, pos: nat, m: nat, n: nat)
    requires m <= n && HaltsWithin(words, pos, m)
    ensures HaltsWithin(words, pos, n)
    decreases n
  {
    match StepAt(words, pos)
    case Stop =>
    case Visit(_, next) => HaltsMonotone(words, next, m - 1, n - 1);
  }

  /** Once halted, more iterations collect nothing more. */
  lemma {:induction false} IdsStable(words: seq<nat>, pos: nat, m: nat, n: nat)
    requires m <= n && HaltsWithin(words, pos, m)
    ensures Ids(words, pos, m) == Ids(words, pos, n)
    decreases n
  {
    match StepAt(words, pos)
    case Stop =>
    case Visit(_, next) => IdsStable(words, next, m - 1, n - 1);
  }

  /** Iterations `i` and `j` start at the same position. */
  ghost predicate Meets(words: seq<nat>, pos: nat, i: nat, j: nat) {
    && i < j
    && PositionOf(words, pos, i).Some?
    && PositionOf(words, pos, i) == PositionOf(words, pos, j)
  }

  ghost predicate Revisits(words: seq<nat>, pos: nat) {
    exists i: nat, j: nat :: Meets(words, pos, i, j)
  }

  /** After a repeated position the walk goes round for ever. */
  lemma {:induction false} RevisitNeverHalts(words: seq<nat>, pos: nat, i: nat, j: nat, n: nat)
    requires Meets(words, pos, i, j)
    ensures PositionOf(words, pos, n).Some?
    decreases n
  {
    if n <= j {
      PositionCompose(words, pos, n, j - n);
    } else {
      PositionCompose(words, pos, j, n - j);
      PositionCompose(words, pos, i, n - j);
      RevisitNeverHalts(words, pos, i, j, i + (n - j));
    }
  }

  /** A walk still going after `n + 1` iterations stood on `n + 1` words of the file. */
  lemma LivePositionInFile(words: seq<nat>, pos: nat, k: nat, n: nat)
    requires k < n && PositionOf(words, pos, n).Some?
    ensures PositionOf(words, pos, k).Some?
    ensures PositionOf(words, pos, k).value < |words|
  {
    PositionCompose(words, pos, k, n - k);
  }

  /** Pigeonhole: more entries than the values below `bound` contain a repetition. */
  lemma {:induction false} Pigeonhole(s: seq<nat>, bound: nat) returns (i: nat, j: nat)
    requires |s| > bound && forall k :: 0 <= k < |s| ==> s[k] < bound
    ensures i < j < |s| && s[i] == s[j]
    decreases bound
  {
    assert s[0] < bound;
    var top := bound - 1;
    if k :| 0 <= k < |s| && s[k] == top {
      if l :| 0 <= l < |s| && l != k && s[l] == top {
        i, j := if k < l then k else l, if k < l then l else k;
      } else {
        var rest := s[..k] + s[k + 1..];
        i, j := Pigeonhole(rest, top);
        i, j := if i < k then i else i + 1, if j < k then j else j + 1;
      }
    } else {
      i, j := Pigeonhole(s, top);
    }
  }

  lemma LongWalkRevisits(words: seq<nat>, pos: nat)
    requires !HaltsWithin(words, pos, |words| + 1)
    ensures Revisits(words, pos)
  {
    var n := |words| + 1;
    HaltsIffPositionEnds(words, pos, n);
    forall k | 0 <= k < n
      ensures PositionOf(words, pos, k).Some? && PositionOf(words, pos, k).value < |words|
    {
      LivePositionInFile(words, pos, k, n);
    }
    var stops := seq(n, k requires 0 <= k < n => PositionOf(words, pos, k).value);
    var i, j := Pigeonhole(stops, |words|);
    assert stops[i] == stops[j];
    assert Meets(words, pos, i, j);
  }

  /**
    The walk ends if and only if it visits no position twice, and if and only if it ends
    within one iteration more than the file has words.
   */
  lemma HaltsIffNoRevisit(words: seq<nat>, pos: nat)
    ensures Halts(words, pos) <==> !Revisits(words, pos)
    ensures Halts(words, pos) <==> HaltsWithin(words, pos, |words| + 1)
  {
    if Revisits(words, pos) {
      var i: nat, j: nat :| Meets(words, pos, i, j);
      forall n: nat
        ensures !HaltsWithin(words, pos, n)
      {
        RevisitNeverHalts(words, pos, i, j, n);
        HaltsIffPositionEnds(words, pos, n);
      }
    } else if !HaltsWithin(words, pos, |words| + 1) {
      LongWalkRevisits(words, pos);
    }
  }

  /** One iteration more than the file has words decides everything: more iterations change nothing. */
  lemma BudgetSuffices(image: seq<bv32>, n: nat)
    requires n > |image|
    ensures CoverageHalts(image, n) <==> CoverageHalts(image, |image| + 1)
    ensures CoverageHalts(image, n) ==> Coverage(image, n) == Coverage(image, |image| + 1)
  {
    match ByteOrder(image)
    case None =>
    case Some(swapped) =>
      var words, pos := Decoded(image, swapped), BodyStart(image);
      HaltsIffNoRevisit(words, pos);
      if HaltsWithin(words, pos, n) {
        IdsStable(words, pos, |image| + 1, n);
      } else if HaltsWithin(words, pos, |image| + 1) {
        HaltsMonotone(words, pos, |image| + 1, n);
      }
  }

  /** Every record met ends below the 2^30-word limit. */
  predicate RecordsFit(words: seq<nat>, pos: nat)
    decreases if pos < |words| then |words| - pos else 0
  {
    At(words, pos) == 0 ||
    (RecordEnd(words, pos) < WORD_LIMIT && RecordsFit(words, RecordEnd(words, pos)))
  }

  /** Without wrapping the position rises with every iteration, so the walk ends. */
  lemma {:induction false} FittingRecordsHalt(words: seq<nat>, pos: nat, n: nat)
    requires RecordsFit(words, pos)
    requires n > (if pos < |words| then |words| - pos else 0)
    ensures HaltsWithin(words, pos, n)
    decreases n
  {
    if At(words, pos) != 0 {
      SmallLanding(RecordEnd(words, pos));
      FittingRecordsHalt(words, RecordEnd(words, pos), n - 1);
    }
  }

  /** A file whose only record claims a length of 2^32 - 2 words: its end wraps to its start. */
  const LOOPING_FILE: seq<bv32> := [DATA_MAGIC, 0, 0, TAG_LINES, 0xffff_fffe]

  lemma LoopingWords()
    ensures ByteOrder(LOOPING_FILE) == Some(false)
    ensures var words := Decoded(LOOPING_FILE, false);
            |words| == 5 && words[3] != 0 && words[4] == 0xffff_fffe
  {
    hide Swap;
    hide Number;
    NumberInjective(TAG_LINES, 0);
    NumberValues();
    var words := Decoded(LOOPING_FILE, false);
    assert words[3] == Number(TAG_LINES) && words[4] == Number(0xffff_fffe);
  }

  lemma NumberValues()
    ensures Number(0) == 0 && Number(0xffff_fffe) == 0xffff_fffe
  {
  }

  lemma LoopingFileNeverHalts(n: nat)
    ensures !CoverageHalts(LOOPING_FILE, n)
  {
    hide Decoded;
    hide ByteOrder;
    LoopingWords();
    LoopingWalk(Decoded(LOOPING_FILE, false), n);
  }

  lemma {:induction false} LoopingWalk(words: seq<nat>, n: nat)
    requires |words| == 5 && words[3] != 0 && words[4] == 0xffff_fffe
    ensures !HaltsWithin(words, 3, n)
  {
    if n > 0 {
      assert StepAt(words, 3).Visit? && StepAt(words, 3).next == 3;
      LoopingWalk(words, n - 1);
    }
  }
}
