/**
  The unbuffered reference for reading a coverage file: a word position over the words of
  the file.  Reading past the end yields nothing and does not move.  A multi-word request
  that overruns the end leaves the reader drained: the remaining words stay out of reach
  until it is moved elsewhere.
 */
module GcdaCursor {
  import opened Options
  import opened GcovIo

  const U32: int := 0x1_0000_0000

  /** Byte offsets are 32 bits wide, so word positions live below this limit. */
  const WORD_LIMIT: int := 0x4000_0000

  datatype Cursor = Cursor(pos: nat, drained: bool)

  /** Words a cursor can still deliver. */
  function Available(image: seq<bv32>, c: Cursor): nat {
    if c.drained || c.pos >= |image| then 0 else |image| - c.pos
  }

  function Read(image: seq<bv32>, c: Cursor, words: nat): (Cursor, Option<seq<bv32>>) {
    if words == 0 then
      (c, Some([]))
    else if words <= Available(image, c) then
      (Cursor(c.pos + words, false), Some(image[c.pos..c.pos + words]))
    else
      (Cursor(c.pos, c.drained || c.pos < |image|), None)
  }

  /** Where a 32-bit target lands once it has been turned into a 32-bit byte offset. */
  function Landing(target: int): nat {
    target % WORD_LIMIT
  }

  function Seek(c: Cursor, base: nat, length: nat): Cursor {
    if c.drained && (base + length) % U32 == c.pos then c else Cursor(Landing(base + length), false)
  }

  lemma LandingTwice(target: nat)
    ensures Landing(target % U32) == Landing(target)
  {
    hide Landing;
    var q, r := target / U32, target % U32;
    assert target == (4 * q) * WORD_LIMIT + r;
    LandingPeriodic(r, 4 * q);
  }

  lemma {:induction false} LandingPeriodic(t: nat, q: nat)
    ensures Landing(q * WORD_LIMIT + t) == Landing(t)
  {
    hide Landing;
    if q > 0 {
      LandingPeriodic(t, q - 1);
      assert q * WORD_LIMIT + t == ((q - 1) * WORD_LIMIT + t) + WORD_LIMIT;
      LandingNext((q - 1) * WORD_LIMIT + t);
    }
  }

  lemma LandingNext(t: nat)
    ensures Landing(t + WORD_LIMIT) == Landing(t)
  {
  }

  function Decode(swapped: bool, w: bv32): bv32 {
    if swapped then Swap(w) else w
  }

  /** The decoded word at a position, zero beyond the end of the file. */
  function WordAt(image: seq<bv32>, swapped: bool, pos: nat): bv32 {
    if pos < |image| then Decode(swapped, image[pos]) else 0
  }

  // ---- Scripts of operations ---------------------------------------------------------------

  datatype Op = ReadOp(words: nat) | SyncOp(base: nat, length: nat)

  /** One observation per operation: what a read returned, and the position afterwards. */
  datatype Observation = Observation(words: Option<seq<bv32>>, position: nat)

  function RunOne(image: seq<bv32>, c: Cursor, op: Op): (Cursor, Observation) {
    match op
    case ReadOp(words) =>
      var (c', r) := Read(image, c, words);
      (c', Observation(r, c'.pos))
    case SyncOp(base, length) =>
      var c' := Seek(c, base, length);
      (c', Observation(None, c'.pos))
  }

  function Run(image: seq<bv32>, c: Cursor, ops: seq<Op>): (r: (Cursor, seq<Observation>))
    ensures |r.1| == |ops|
  {
    if ops == [] then (c, [])
    else
      var (c', before) := Run(image, c, ops[..|ops| - 1]);
      var (c'', o) := RunOne(image, c', ops[|ops| - 1]);
      (c'', before + [o])
  }

  // ---- The window test of Sync -------------------------------------------------------------

  /** The test the reader makes on unsigned 32-bit values. */
  predicate InWindow(start: nat, length: nat, target: nat) {
    (target - start) % U32 <= length
  }

  /** The unsigned test holds exactly when the target lies in the buffered window. */
  lemma WindowTest(start: nat, length: nat, target: nat)
    requires start + length < U32 && target < U32
    ensures InWindow(start, length, target) <==> start <= target <= start + length
    ensures start <= target ==> (target - start) % U32 == target - start
  {
  }

  /** Shifting a word position into a 32-bit byte offset and back drops its top two bits. */
  lemma ByteOffsetLanding(target: nat)
    ensures (target * 4) % U32 == 4 * Landing(target)
  {
    var q := target / WORD_LIMIT;
    assert target * 4 == q * U32 + 4 * Landing(target);
  }

  lemma SmallLanding(target: nat)
    ensures Landing(target) < WORD_LIMIT
    ensures target < WORD_LIMIT ==> Landing(target) == target
  {
  }

  /** Position after synchronising a reader that buffers `length` words from `start`. */
  function SyncPosition(start: nat, length: nat, target: nat): nat {
    if InWindow(start, length, target) then start + (target - start) % U32 else Landing(target)
  }

  /** A window lies inside a file of `n` words. */
  predicate WindowFits(start: nat, length: nat, n: nat) {
    start + length <= n && start + length < U32
  }

  /**
    Synchronising is independent of what happens to be buffered exactly for files of fewer
    than 2^30 words; from there on the answer depends on the window.
   */
  lemma SyncIgnoresBufferIff(n: nat)
    ensures (forall start: nat, length: nat, target: nat ::
               WindowFits(start, length, n) && target < U32
               ==> SyncPosition(start, length, target) == Landing(target))
            <==> n < WORD_LIMIT
  {
    if n >= WORD_LIMIT {
      assert WindowFits(WORD_LIMIT - 1, 1, n);
      assert SyncPosition(WORD_LIMIT - 1, 1, WORD_LIMIT) == WORD_LIMIT;
    }
  }
}
