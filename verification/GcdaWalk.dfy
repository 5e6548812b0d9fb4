/**
  What a coverage file means: the walk over its tagged records, stated on the decoded words
  of the file and plain positions.
 */
module GcdaWalk {
  import opened Options
  import opened GcovIo
  import opened GcdaCursor

  const FUNCTION_TAG: nat := 0x0100_0000

  /** A word as a number. */
  function Number(w: bv32): (n: nat)
    ensures n < U32
  {
    w as nat
  }

  lemma NumberInjective(v: bv32, w: bv32)
    ensures Number(v) == Number(w) <==> v == w
  {
    if Number(v) == Number(w) {
      NumberRoundTrip(v);
      NumberRoundTrip(w);
    }
  }

  /** The word with a given number. */
  function Bits(n: nat): bv32
    requires n < U32
  {
    n as bv32
  }

  lemma NumberRoundTrip(w: bv32)
    ensures Bits(Number(w)) == w
  {
  }

  /** The words of a file as numbers, in the given byte order. */
  function Decoded(image: seq<bv32>, swapped: bool): (words: seq<nat>)
    ensures |words| == |image|
  {
    seq(|image|, i requires 0 <= i < |image| => Number(WordAt(image, swapped, i)))
  }

  /** The word at a position, zero beyond the end. */
  function At(words: seq<nat>, pos: nat): nat {
    if pos < |words| then words[pos] else 0
  }

  datatype Step =
    | Stop
    | Visit(ids: seq<nat>, next: nat)

  /** First position after the tag and the length word of the record at `pos`. */
  function PayloadStart(words: seq<nat>, pos: nat): nat {
    if pos + 1 < |words| then pos + 2 else pos + 1
  }

  /** The identifiers a record contributes: the second word behind the header of a non-empty function record. */
  function IdsAt(words: seq<nat>, pos: nat): seq<nat> {
    if At(words, pos) == FUNCTION_TAG && At(words, pos + 1) != 0
    then [At(words, PayloadStart(words, pos) + 1)] else []
  }

  /** Where a record ends, before the position is cut down to 30 bits. */
  function RecordEnd(words: seq<nat>, pos: nat): nat {
    PayloadStart(words, pos) + At(words, pos + 1)
  }

  /** The record at `pos`: a zero tag ends the walk, and so does the end of the file. */
  function StepAt(words: seq<nat>, pos: nat): Step {
    if At(words, pos) == 0 then Stop
    else Visit(IdsAt(words, pos), Landing(RecordEnd(words, pos)))
  }

  /** The identifiers collected by the first `n` iterations. */
  function Ids(words: seq<nat>, pos: nat, n: nat): seq<nat>
    decreases n
  {
    if n == 0 then []
    else match StepAt(words, pos)
      case Stop => []
      case Visit(ids, next) => ids + Ids(words, next, n - 1)
  }

  /** The tags met by the first `n` iterations. */
  function TagWords(image: seq<bv32>, swapped: bool, pos: nat, n: nat): seq<bv32>
    decreases n
  {
    if n == 0 then []
    else match StepAt(Decoded(image, swapped), pos)
      case Stop => []
      case Visit(_, next) => [WordAt(image, swapped, pos)] + TagWords(image, swapped, next, n - 1)
  }

  /** A walk goes on from a word exactly if the word is not zero. */
  lemma VisitsIffTag(image: seq<bv32>, swapped: bool, pos: nat)
    ensures At(Decoded(image, swapped), pos) == Number(WordAt(image, swapped, pos))
    ensures StepAt(Decoded(image, swapped), pos).Visit? <==> WordAt(image, swapped, pos) != 0
  {
    assert Number(0) == 0;
    NumberInjective(WordAt(image, swapped, pos), 0);
  }

  /** Every tag met is a word of the file, and none is zero. */
  lemma {:induction false} TagsNonZero(image: seq<bv32>, swapped: bool, pos: nat, n: nat)
    ensures 0 !in TagWords(image, swapped, pos, n)
    decreases n
  {
    hide StepAt;
    hide Decoded;
    hide WordAt;
    if n > 0 {
      VisitsIffTag(image, swapped, pos);
      match StepAt(Decoded(image, swapped), pos)
      case Stop =>
      case Visit(_, next) => TagsNonZero(image, swapped, next, n - 1);
    }
  }

  /** The walk ends within its first `n` iterations. */
  predicate HaltsWithin(words: seq<nat>, pos: nat, n: nat)
    decreases n
  {
    n > 0 && match StepAt(words, pos)
             case Stop => true
             case Visit(_, next) => HaltsWithin(words, next, n - 1)
  }

  ghost predicate Halts(words: seq<nat>, pos: nat) {
    exists n :: HaltsWithin(words, pos, n)
  }

  // ---- Whole files ---------------------------------------------------------------------------

  /** The byte order a file announces: `Some(true)` for the swapped magic, none for any other word. */
  function ByteOrder(image: seq<bv32>): Option<bool> {
    var magic := WordAt(image, false, 0);
    if magic == DATA_MAGIC then Some(false)
    else if Swap(magic) == DATA_MAGIC then Some(true)
    else None
  }

  /** The walk starts behind magic, version and stamp. */
  function BodyStart(image: seq<bv32>): nat {
    if |image| < 3 then |image| else 3
  }

  /** The result of parsing a file with at most `n` iterations of the record loop. */
  function Coverage(image: seq<bv32>, n: nat): seq<nat> {
    match ByteOrder(image)
    case None => []
    case Some(swapped) => Ids(Decoded(image, swapped), BodyStart(image), n)
  }

  /** The tags met while parsing a file with at most `n` iterations of the record loop. */
  function CoverageTags(image: seq<bv32>, n: nat): seq<bv32> {
    match ByteOrder(image)
    case None => []
    case Some(swapped) => TagWords(image, swapped, BodyStart(image), n)
  }

  predicate CoverageHalts(image: seq<bv32>, n: nat) {
    match ByteOrder(image)
    case None => true
    case Some(swapped) => HaltsWithin(Decoded(image, swapped), BodyStart(image), n)
  }

  // ---- Byte order ----------------------------------------------------------------------------

  function SwapAll(image: seq<bv32>): (r: seq<bv32>)
    ensures |r| == |image|
  {
    seq(|image|, i requires 0 <= i < |image| => Swap(image[i]))
  }

  lemma SwappedDecodes(image: seq<bv32>, swapped: bool)
    ensures Decoded(SwapAll(image), !swapped) == Decoded(image, swapped)
  {
    forall i | 0 <= i < |image|
      ensures Decoded(SwapAll(image), !swapped)[i] == Decoded(image, swapped)[i]
    {
      SwapReversesBytes(image[i]);
      assert WordAt(SwapAll(image), !swapped, i) == WordAt(image, swapped, i);
    }
  }

  lemma SwappedMagic(image: seq<bv32>)
    ensures ByteOrder(SwapAll(image)) == match ByteOrder(image) case None => None case Some(s) => Some(!s)
  {
    if |image| > 0 {
      SwapReversesBytes(image[0]);
    }
  }

  /** Parsing does not depend on byte order: swapping every word of any file changes nothing. */
  lemma CoverageIgnoresByteOrder(image: seq<bv32>, n: nat)
    ensures Coverage(SwapAll(image), n) == Coverage(image, n)
    ensures CoverageHalts(SwapAll(image), n) == CoverageHalts(image, n)
  {
    SwappedMagic(image);
    match ByteOrder(image)
    case None =>
    case Some(swapped) => SwappedDecodes(image, swapped);
  }
}
