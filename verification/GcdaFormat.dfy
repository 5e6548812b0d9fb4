/**
  Coverage files as they are written: a header and a list of records, possibly cut short.
  Walking such a file gives back the identifiers of its function records.
 */
module GcdaFormat {
  import opened Options
  import opened GcdaCursor
  import opened GcdaWalk
  import opened GcdaTermination

  /** The records behind the header of a file. */
  datatype Body = End | Record(tag: nat, payload: seq<nat>, rest: Body)

  /** No record carries the tag that ends a file. */
  predicate Tagged(b: Body) {
    b.End? || (b.tag != 0 && Tagged(b.rest))
  }

  predicate NoOneWordFunctions(b: Body) {
    b.End? || (!(b.tag == FUNCTION_TAG && |b.payload| == 1) && NoOneWordFunctions(b.rest))
  }

  function Count(b: Body): nat {
    if b.End? then 0 else 1 + Count(b.rest)
  }

  function Encode(b: Body): seq<nat> {
    if b.End? then [] else [b.tag, |b.payload|] + b.payload + Encode(b.rest)
  }

  /** Words of the first record. */
  function Size(b: Body): nat
    requires b.Record?
  {
    2 + |b.payload|
  }

  /** Words of all records. */
  function TotalSize(b: Body): nat {
    if b.End? then 0 else Size(b) + TotalSize(b.rest)
  }

  function Minus(k: nat, end: nat): nat {
    if end < k then k - end else 0
  }

  /**
    The identifiers of the first record when `k` words from its tag on are present: its
    second payload word; for a payload of one word the tag of the next record; zero when
    that word is missing.
   */
  function RecordIds(b: Body, k: nat): seq<nat>
    requires b.Record?
  {
    if b.tag != FUNCTION_TAG || b.payload == [] then []
    else if k <= 3 then [0]
    else if |b.payload| >= 2 then [b.payload[1]]
    else if b.rest.Record? then [b.rest.tag]
    else [0]
  }

  /** The identifiers in the first `k` words of the encoded records. */
  function Expected(b: Body, k: nat): seq<nat> {
    if b.End? || k < 2 then [] else RecordIds(b, k) + Expected(b.rest, Minus(k, Size(b)))
  }

  /** The second payload word of every function record that has one. */
  function SecondWords(b: Body): seq<nat> {
    if b.End? then []
    else (if b.tag == FUNCTION_TAG && |b.payload| >= 2 then [b.payload[1]] else []) + SecondWords(b.rest)
  }

  function OneWordFunctions(b: Body): nat {
    if b.End? then 0
    else (if b.tag == FUNCTION_TAG && |b.payload| == 1 then 1 else 0) + OneWordFunctions(b.rest)
  }

  /** Every one-word function record contributes an identifier that is no second payload word. */
  lemma {:induction false} ExpectedLength(b: Body)
    ensures |Expected(b, TotalSize(b))| == |SecondWords(b)| + OneWordFunctions(b)
    ensures OneWordFunctions(b) == 0 <==> NoOneWordFunctions(b)
  {
    if b.Record? {
      ExpectedLength(b.rest);
    }
  }

  /** In a complete file the identifiers are the second payload words if and only if no function record has one word. */
  lemma {:induction false} ExpectedComplete(b: Body)
    ensures Expected(b, TotalSize(b)) == SecondWords(b) <==> NoOneWordFunctions(b)
  {
    ExpectedLength(b);
    if NoOneWordFunctions(b) && b.Record? {
      ExpectedComplete(b.rest);
    }
  }

  /** The words from `pos` on are the records of `b`, cut short by the end of `words` or ended by a zero tag. */
  predicate Holds(words: seq<nat>, pos: nat, b: Body)
    decreases b
  {
    pos < |words| ==>
      if b.End? then words[pos] == 0
      else
        && words[pos] == b.tag
        && (pos + 1 < |words| ==> words[pos + 1] == |b.payload|)
        && (|b.payload| >= 2 && pos + 3 < |words| ==> words[pos + 3] == b.payload[1])
        && Holds(words, pos + Size(b), b.rest)
  }

  /** A text of words that begins the encoding, or begins with it and a zero word. */
  predicate BeginsOrContains(words: seq<nat>, enc: seq<nat>) {
    words <= enc || enc + [0] <= words
  }

  lemma FirstWords(words: seq<nat>, pos: nat, b: Body)
    requires pos < |words| && b.Record? && BeginsOrContains(words[pos..], Encode(b))
    ensures words[pos] == b.tag
    ensures pos + 1 < |words| ==> words[pos + 1] == |b.payload|
    ensures |b.payload| >= 2 && pos + 3 < |words| ==> words[pos + 3] == b.payload[1]
  {
    var enc := Encode(b);
    assert enc[0] == b.tag && enc[1] == |b.payload| && (|b.payload| >= 2 ==> enc[3] == b.payload[1]);
    forall j | pos <= j < |words| && j - pos < |enc|
      ensures words[j] == enc[j - pos]
    {
      assert words[j] == words[pos..][j - pos];
    }
  }

  lemma RestWords(words: seq<nat>, pos: nat, b: Body)
    requires b.Record? && pos + Size(b) <= |words| && BeginsOrContains(words[pos..], Encode(b))
    ensures BeginsOrContains(words[pos + Size(b)..], Encode(b.rest))
  {
    var all, enc, k := words[pos..], Encode(b), Size(b);
    assert words[pos + k..] == all[k..];
    assert enc[k..] == Encode(b.rest);
    if all <= enc {
      assert all[k..] <= enc[k..];
    } else {
      assert (enc + [0])[k..] == enc[k..] + [0];
    }
  }

  lemma {:induction false} WrittenHolds(words: seq<nat>, pos: nat, b: Body)
    requires pos <= |words| && BeginsOrContains(words[pos..], Encode(b))
    ensures Holds(words, pos, b)
    decreases b
  {
    if pos < |words| {
      if b.Record? {
        hide Encode;
        hide BeginsOrContains;
        FirstWords(words, pos, b);
        if pos + Size(b) <= |words| {
          RestWords(words, pos, b);
          WrittenHolds(words, pos + Size(b), b.rest);
        }
      } else {
        assert words[pos] == words[pos..][0];
      }
    }
  }

  lemma {:induction false} EncodeSize(b: Body)
    ensures |Encode(b)| == TotalSize(b)
  {
    if b.Record? {
      EncodeSize(b.rest);
    }
  }

  lemma StopsAtZero(words: seq<nat>, pos: nat, n: nat)
    requires n > 0 && At(words, pos) == 0
    ensures Ids(words, pos, n) == [] && HaltsWithin(words, pos, n)
  {
  }

  lemma TakeStep(words: seq<nat>, pos: nat, n: nat, ids: seq<nat>, next: nat)
    requires n > 0 && StepAt(words, pos) == Visit(ids, next)
    ensures Ids(words, pos, n) == ids + Ids(words, next, n - 1)
    ensures HaltsWithin(words, pos, n) == HaltsWithin(words, next, n - 1)
  {
  }

  lemma StepOnRecord(words: seq<nat>, pos: nat, b: Body)
    requires b.Record? && Tagged(b) && Holds(words, pos, b) && pos < |words| && pos + TotalSize(b) < WORD_LIMIT
    ensures StepAt(words, pos) ==
            if pos + 1 == |words| then Visit([], pos + 1)
            else Visit(RecordIds(b, |words| - pos), pos + Size(b))
  {
    SmallLanding(RecordEnd(words, pos));
    if |b.payload| == 1 && pos + 3 < |words| {
      assert Holds(words, pos + 3, b.rest);
    }
  }

  /** Walking a written, possibly truncated, list of records collects the expected identifiers. */
  lemma {:induction false} WalkReadsRecords(words: seq<nat>, pos: nat, b: Body, n: nat)
    requires Tagged(b) && Holds(words, pos, b)
    requires pos + TotalSize(b) < WORD_LIMIT && n > Count(b)
    ensures Ids(words, pos, n) == Expected(b, Minus(|words|, pos))
    ensures HaltsWithin(words, pos, n)
    decreases b
  {
    hide StepAt;
    hide Ids;
    hide HaltsWithin;
    hide RecordIds;
    if pos >= |words| || b.End? {
      StopsAtZero(words, pos, n);
    } else {
      StepOnRecord(words, pos, b);
      if pos + 1 == |words| {
        TakeStep(words, pos, n, [], pos + 1);
        StopsAtZero(words, pos + 1, n - 1);
      } else {
        TakeStep(words, pos, n, RecordIds(b, |words| - pos), pos + Size(b));
        WalkReadsRecords(words, pos + Size(b), b.rest, n - 1);
      }
    }
  }

  /**
    `image` is a file of these records, in the announced byte order: cut anywhere behind its
    header, complete, or going on behind the records with a zero word and anything at all.
   */
  predicate IsFileOf(image: seq<bv32>, swapped: bool, b: Body) {
    ByteOrder(image) == Some(swapped) && |image| >= 3 && BeginsOrContains(Decoded(image, swapped)[3..], Encode(b))
  }

  /**
    Round trip: a file written in either byte order, cut anywhere behind its header or
    followed by a zero word and anything else, is read back to the identifiers of its
    function records, and the walk ends.
   */
  lemma ParseInvertsWrite(image: seq<bv32>, swapped: bool, b: Body, n: nat)
    requires Tagged(b) && IsFileOf(image, swapped, b)
    requires 3 + |Encode(b)| < WORD_LIMIT && n > Count(b)
    ensures Coverage(image, n) == Expected(b, |image| - 3) && CoverageHalts(image, n)
  {
    EncodeSize(b);
    WrittenHolds(Decoded(image, swapped), 3, b);
    WalkReadsRecords(Decoded(image, swapped), 3, b, n);
  }

  /** The same without naming a number of iterations: the loop ends by itself and leaves these identifiers. */
  lemma WrittenFileParses(image: seq<bv32>, swapped: bool, b: Body)
    requires Tagged(b) && IsFileOf(image, swapped, b) && 3 + |Encode(b)| < WORD_LIMIT
    ensures CoverageHalts(image, |image| + 1)
    ensures Coverage(image, |image| + 1) == Expected(b, |image| - 3)
  {
    var n := Count(b) + |image| + 1;
    ParseInvertsWrite(image, swapped, b, n);
    BudgetSuffices(image, n);
  }

  /** With all words of the records present, what follows them does not matter. */
  lemma {:induction false} ExpectedIgnoresRest(b: Body, k: nat)
    requires k >= TotalSize(b)
    ensures Expected(b, k) == Expected(b, TotalSize(b))
  {
    if b.Record? {
      ExpectedIgnoresRest(b.rest, k - Size(b));
    }
  }

  /** A small file, written out: magic, version and stamp, then a function record of three words. */
  const SMALL_FILE: seq<bv32> := [0x6763_6461, 0x3430_372a, 7, 0x0100_0000, 3, 11, 42, 5]

  lemma SmallFileParses()
    ensures CoverageHalts(SMALL_FILE, 9) && Coverage(SMALL_FILE, 9) == [42]
  {
    hide Decoded;
    hide ByteOrder;
    hide Ids;
    hide HaltsWithin;
    SmallFileWords();
    var words := Decoded(SMALL_FILE, false);
    SmallLanding(8);
    assert StepAt(words, 3) == Visit([42], 8);
    TakeStep(words, 3, 9, [42], 8);
    StopsAtZero(words, 8, 8);
    assert [42] + [] == [42];
  }

  lemma SmallFileWords()
    ensures ByteOrder(SMALL_FILE) == Some(false)
    ensures var words := Decoded(SMALL_FILE, false);
            |words| == 8 && words[3] == 0x0100_0000 && words[4] == 3 && words[5] == 11 && words[6] == 42
  {
    hide Number;
    SmallNumbers();
  }

  lemma SmallNumbers()
    ensures Number(0x0100_0000) == 0x0100_0000 && Number(3) == 3 && Number(11) == 11 && Number(42) == 42
  {
  }
}
