/**
  The coverage parser: reads the magic, then walks the tagged records, collecting one
  identifier per function record and checking how the tags are nested.

  The record loop of the original has no bound and can run for ever (see GcdaTermination).
  `Parse` has no bound either, and is stated for the files on which the loop ends;
  `ParseAtMost` performs a given number of iterations on any file.
 */
module GcdaParser {
  import opened Options
  import opened GcovIo
  import opened GcdaCursor
  import opened GcdaWalk
  import opened GcdaNesting
  import File = GcdaFile

  class GcdaRawCoverageParser {
    const gcda: File.GcdaFile
    var result: seq<nat>
    var log: seq<Diagnostic>   // what is written to the error stream
    ghost var tags: seq<bv32>  // the tags met

    constructor (gcda: File.GcdaFile)
      ensures this.gcda == gcda && result == [] && log == [] && tags == []
    {
      this.gcda := gcda;
      result, log, tags := [], [], [];
    }

    /** Everything reported so far is what the tags met so far call for, and the stack knows the last of them. */
    ghost predicate Checked(stack: array<bv32>, depth: nat)
      reads this, stack
    {
      && 0 !in tags && log == DiagnoseAll(tags)
      && Nested(stack, depth, Last(tags))
    }

    /** An open reader with no error and nothing lost. */
    ghost predicate Reading()
      reads this, gcda
    {
      gcda.Valid() && gcda.file && gcda.error == 0 && !gcda.Abs().drained
    }

    ghost function Pos(): nat
      reads gcda
    {
      gcda.Abs().pos
    }

    method TagFunction(length: nat)
      requires Reading()
      modifies this`result, gcda
      ensures Reading() && gcda.endian == old(gcda.endian)
      ensures result == old(result) + if length == 0 then [] else [At(gcda.Words(), old(Pos()) + 1)]
    {
      hide File.GcdaFile.Valid;
      if length != 0 {
        var _ := gcda.ReadUnsigned();
        var checksum := gcda.ReadUnsigned();
        result := result + [checksum];
        var _ := gcda.ReadUnsigned();
      }
    }

    /** Reads the tag and the length of a record and returns them with the payload position. */
    method ReadHeader() returns (tag: nat, length: nat, base: nat)
      requires Reading()
      modifies gcda
      ensures Reading() && gcda.endian == old(gcda.endian)
      ensures tag == At(gcda.Words(), old(Pos())) < U32
      ensures tag != 0 ==>
                && length == At(gcda.Words(), old(Pos()) + 1) < U32
                && base == Pos() == PayloadStart(gcda.Words(), old(Pos())) <= |gcda.image|
    {
      tag := gcda.ReadUnsigned();
      length, base := 0, 0;
      if tag != 0 {
        length := gcda.ReadUnsigned();
        gcda.PositionIsAbs();
        base := gcda.Position();
      }
    }

    /** Judges a tag against the one met before it and reports. */
    method CheckNesting(stack: array<bv32>, depth: nat, tag: bv32) returns (newDepth: nat)
      requires tag != 0 && Checked(stack, depth)
      modifies this`log, this`tags, stack
      ensures tags == old(tags) + [tag] && Checked(stack, newDepth)
    {
      var report;
      newDepth, report := CheckTag(stack, depth, tag, Last(tags));
      DiagnoseNext(tags, tag);
      log := log + report;
      tags := tags + [tag];
    }

    /** Handles the payload of a record and moves behind it. */
    method Payload(tag: nat, length: nat, base: nat)
      requires Reading() && base == Pos() <= |gcda.image| && length < U32
      modifies this`result, gcda
      ensures Reading() && gcda.endian == old(gcda.endian)
      ensures Pos() == Landing(base + length)
      ensures result == old(result) +
                        if tag == FUNCTION_TAG && length != 0 then [At(gcda.Words(), base + 1)] else []
    {
      if tag == FUNCTION_TAG {
        TagFunction(length);
      }
      gcda.Sync(base, length);
    }

    /** One iteration of the record loop; `n` more were allowed before it. */
    method ParseRecord(stack: array<bv32>, depth: nat, ghost n: nat) returns (more: bool, newDepth: nat)
      requires Reading() && Checked(stack, depth) && n > 0
      modifies this`result, this`log, this`tags, gcda, stack
      ensures Reading() && gcda.endian == old(gcda.endian) && Checked(stack, newDepth)
      ensures Outcome(gcda.image, gcda.endian, old(Pos()), n, old(result), old(tags)) ==
              if more then Outcome(gcda.image, gcda.endian, Pos(), n - 1, result, tags) else (true, result, tags)
    {
      hide File.GcdaFile.Valid;
      hide Outcome;
      hide StepAt;
      hide DiagnoseAll;
      hide Nested;
      ghost var pos := Pos();
      var tag, length, base := ReadHeader();
      TagAt(gcda.image, gcda.endian, pos, tag);
      if tag == 0 {
        LoopEnds(gcda.image, gcda.endian, pos, n, result, tags);
        return false, depth;
      }
      VisitOne(gcda.image, gcda.endian, pos, n, result, tags);
      newDepth := CheckNesting(stack, depth, Bits(tag));
      Payload(tag, length, base);
      return gcda.IsError() == 0, newDepth;
    }

    /** The stack of tags the nesting check starts with. */
    method NewStack() returns (stack: array<bv32>)
      ensures fresh(stack) && (tags == [] && log == [] ==> Checked(stack, 0))
    {
      stack := new bv32[4];
    }

    /** The stamp in front of the records. */
    method SkipStamp()
      requires Reading()
      modifies gcda
      ensures Reading() && gcda.endian == old(gcda.endian) && Pos() == AfterStamp(gcda.image, old(Pos()))
    {
      var _ := gcda.ReadUnsigned();
    }

    /** The record loop, for at most `budget` iterations on any file. */
    method ParseBodyAtMost(budget: nat) returns (halted: bool)
      requires Reading() && tags == [] && log == []
      modifies this`result, this`log, this`tags, gcda
      ensures Reading() && gcda.endian == old(gcda.endian)
      ensures (halted, result, tags) ==
              Outcome(gcda.image, gcda.endian, AfterStamp(gcda.image, old(Pos())), budget, old(result), [])
      ensures 0 !in tags && log == DiagnoseAll(tags)
    {
      hide File.GcdaFile.Valid;
      hide Outcome;
      hide DiagnoseAll;
      hide Nested;
      var stack := NewStack();
      var depth := 0;
      SkipStamp();
      ghost var start := Pos();
      var left: nat := budget;
      while left > 0
        invariant Reading() && gcda.endian == old(gcda.endian) && Checked(stack, depth)
        invariant Outcome(gcda.image, gcda.endian, Pos(), left, result, tags)
               == Outcome(gcda.image, gcda.endian, start, budget, old(result), [])
      {
        var more;
        more, depth := ParseRecord(stack, depth, left);
        if !more { return true; }
        left := left - 1;
      }
      LoopEnds(gcda.image, gcda.endian, Pos(), left, result, tags);
      return false;
    }

    /**
      Skips the stamp and walks the records until the loop ends, which it does by assumption
      within `n` iterations.
     */
    method ParseBody(ghost n: nat)
      requires Reading() && tags == [] && log == []
      requires HaltsWithin(gcda.Words(), AfterStamp(gcda.image, Pos()), n)
      modifies this`result, this`log, this`tags, gcda
      ensures Reading() && gcda.endian == old(gcda.endian)
      ensures var start := AfterStamp(gcda.image, old(Pos()));
              result == old(result) + Ids(gcda.Words(), start, n) && tags == TagWords(gcda.image, gcda.endian, start, n)
      ensures 0 !in tags && log == DiagnoseAll(tags)
    {
      hide File.GcdaFile.Valid;
      hide Outcome;
      hide DiagnoseAll;
      hide Nested;
      var stack := NewStack();
      var depth := 0;
      SkipStamp();
      ghost var start, left: nat := Pos(), n;
      OutcomeOf(gcda.image, gcda.endian, start, n, result, tags);
      while true
        invariant Reading() && gcda.endian == old(gcda.endian) && Checked(stack, depth)
        invariant Outcome(gcda.image, gcda.endian, Pos(), left, result, tags)
               == Outcome(gcda.image, gcda.endian, start, n, old(result), [])
        decreases left
      {
        OutcomeOf(gcda.image, gcda.endian, Pos(), left, result, tags);
        var more;
        more, depth := ParseRecord(stack, depth, left);
        if !more { break; }
        left := left - 1;
      }
    }

    /** Accepts a file whose first word is the magic in either byte order; skips the version. */
    method ParseMagic() returns (ok: bool)
      requires Reading() && Pos() == 0 && !gcda.endian
      modifies gcda
      ensures ok <==> ByteOrder(gcda.image).Some?
      ensures ok ==> Reading() && Some(gcda.endian) == ByteOrder(gcda.image)
                     && Pos() == if |gcda.image| < 2 then |gcda.image| else 2
      ensures !ok ==> gcda.Valid() && !gcda.file
    {
      hide File.GcdaFile.Valid;
      hide Swap;
      hide Bits;
      hide ByteOrder;
      var magic := gcda.ReadUnsigned();
      MagicNumber(gcda.image, magic);
      var order := gcda.Magic(magic, MAGIC);
      if order == 0 {
        var _ := gcda.Close();
        return false;
      }
      var _ := gcda.ReadUnsigned();  // version, not checked
      return true;
    }

    /** Opens the file and reads its magic. */
    method Begin() returns (ok: bool)
      requires gcda.Valid()
      modifies this`result, this`log, this`tags, gcda
      ensures gcda.Valid() && result == [] && tags == [] && log == []
      ensures ok <==> !old(gcda.file) && gcda.openable && ByteOrder(gcda.image).Some?
      ensures ok ==> Reading() && Some(gcda.endian) == ByteOrder(gcda.image)
                     && Pos() == if |gcda.image| < 2 then |gcda.image| else 2
      ensures !ok && !old(gcda.file) ==> !gcda.file
    {
      result, log, tags := [], [], [];
      ok := gcda.Open();
      if ok {
        ok := ParseMagic();
      }
    }

    /** Parses a file on which the record loop ends; one iteration more than it has words is always enough. */
    method Parse() returns (r: seq<nat>)
      requires gcda.Valid()
      requires !gcda.file && gcda.openable ==> CoverageHalts(gcda.image, |gcda.image| + 1)
      modifies this`result, this`log, this`tags, gcda
      ensures gcda.Valid() && r == result
      ensures r == if !old(gcda.file) && gcda.openable then Coverage(gcda.image, |gcda.image| + 1) else []
      ensures 0 !in tags && log == DiagnoseAll(tags)
      ensures tags == if !old(gcda.file) && gcda.openable then CoverageTags(gcda.image, |gcda.image| + 1) else []
      ensures !old(gcda.file) ==> !gcda.file
    {
      hide File.GcdaFile.Valid;
      hide DiagnoseAll;
      hide Ids;
      hide HaltsWithin;
      hide TagWords;
      hide Decoded;
      hide ByteOrder;
      NothingMet();
      var ok := Begin();
      if !ok { return result; }
      ParseBody(|gcda.image| + 1);
      var _ := gcda.Close();
      r := result;
      assert [] + r == r;
    }

    /** The result after at most `budget` iterations of the record loop, on any file. */
    method ParseAtMost(budget: nat) returns (r: seq<nat>, halted: bool)
      requires gcda.Valid()
      modifies this`result, this`log, this`tags, gcda
      ensures gcda.Valid() && r == result
      ensures old(gcda.file) || !gcda.openable ==> r == [] && halted
      ensures !old(gcda.file) && gcda.openable ==>
                && r == Coverage(gcda.image, budget)
                && halted == CoverageHalts(gcda.image, budget)
                && !gcda.file
    {
      hide File.GcdaFile.Valid;
      hide Outcome;
      hide DiagnoseAll;
      hide Ids;
      hide HaltsWithin;
      hide TagWords;
      hide Decoded;
      hide ByteOrder;
      var ok := Begin();
      if !ok { return result, true; }
      OutcomeOf(gcda.image, gcda.endian, AfterStamp(gcda.image, Pos()), budget, result, tags);
      halted := ParseBodyAtMost(budget);
      var _ := gcda.Close();
      r := result;
      assert [] + r == r;
    }
  }

  lemma NothingMet()
    ensures DiagnoseAll([]) == []
  {
  }

  function AfterStamp(image: seq<bv32>, pos: nat): nat {
    if pos < |image| then pos + 1 else pos
  }

  const MAGIC: nat := Number(DATA_MAGIC)

  lemma MagicNumber(image: seq<bv32>, magic: nat)
    requires magic == At(Decoded(image, false), 0)
    ensures magic < U32
    ensures ByteOrder(image) == if magic == MAGIC then Some(false)
                                else if Swap(Bits(magic)) == Bits(MAGIC) then Some(true) else None
  {
    assert Number(0) == 0;
    assert magic == Number(WordAt(image, false, 0));
    NumberRoundTrip(WordAt(image, false, 0));
    NumberRoundTrip(DATA_MAGIC);
    NumberInjective(WordAt(image, false, 0), DATA_MAGIC);
  }

  /** The tag read at a position, as a word. */
  lemma TagAt(image: seq<bv32>, swapped: bool, pos: nat, tag: nat)
    requires tag == At(Decoded(image, swapped), pos) < U32
    ensures Bits(tag) == WordAt(image, swapped, pos)
    ensures tag != 0 <==> StepAt(Decoded(image, swapped), pos).Visit?
    ensures tag != 0 ==> Bits(tag) != 0
    ensures tag != 0 ==>
              StepAt(Decoded(image, swapped), pos)
              == Visit(IdsAt(Decoded(image, swapped), pos), Landing(RecordEnd(Decoded(image, swapped), pos)))
  {
    VisitsIffTag(image, swapped, pos);
    NumberRoundTrip(WordAt(image, swapped, pos));
  }

  /** Whether the loop ends, and what it will have collected, after `n` more iterations. */
  ghost function Outcome(image: seq<bv32>, swapped: bool, pos: nat, n: nat, result: seq<nat>, tags: seq<bv32>)
    : (bool, seq<nat>, seq<bv32>)
  {
    (HaltsWithin(Decoded(image, swapped), pos, n), result + Ids(Decoded(image, swapped), pos, n),
     tags + TagWords(image, swapped, pos, n))
  }

  lemma OutcomeOf(image: seq<bv32>, swapped: bool, pos: nat, n: nat, result: seq<nat>, tags: seq<bv32>)
    ensures Outcome(image, swapped, pos, n, result, tags).0 == HaltsWithin(Decoded(image, swapped), pos, n)
    ensures HaltsWithin(Decoded(image, swapped), pos, n) ==> n > 0
    ensures Outcome(image, swapped, pos, n, result, tags).1 == result + Ids(Decoded(image, swapped), pos, n)
    ensures Outcome(image, swapped, pos, n, result, tags).2 == tags + TagWords(image, swapped, pos, n)
    ensures tags == [] ==> Outcome(image, swapped, pos, n, result, tags).2 == TagWords(image, swapped, pos, n)
  {
    assert [] + TagWords(image, swapped, pos, n) == TagWords(image, swapped, pos, n);
  }

  lemma LoopEnds(image: seq<bv32>, swapped: bool, pos: nat, n: nat, result: seq<nat>, tags: seq<bv32>)
    requires n == 0 || StepAt(Decoded(image, swapped), pos).Stop?
    ensures Outcome(image, swapped, pos, n, result, tags) == (n > 0, result, tags)
  {
    assert result + [] == result && tags + [] == tags;
  }

  lemma VisitOne(image: seq<bv32>, swapped: bool, pos: nat, n: nat, result: seq<nat>, tags: seq<bv32>)
    requires n > 0 && StepAt(Decoded(image, swapped), pos).Visit?
    ensures var Visit(ids, next) := StepAt(Decoded(image, swapped), pos);
            Outcome(image, swapped, next, n - 1, result + ids, tags + [WordAt(image, swapped, pos)])
            == Outcome(image, swapped, pos, n, result, tags)
  {
    hide StepAt;
    hide WordAt;
    hide Decoded;
    var Visit(ids, next) := StepAt(Decoded(image, swapped), pos);
    var more, w := Ids(Decoded(image, swapped), next, n - 1), WordAt(image, swapped, pos);
    var rest := TagWords(image, swapped, next, n - 1);
    assert (result + ids) + more == result + (ids + more);
    assert (tags + [w]) + rest == tags + ([w] + rest);
  }
}
