/**
  The refilling word buffer over an open coverage file.  All counters are 32-bit unsigned
  values of the original; wrap-around is written out where it can happen.
 */
module GcdaFile {
  import opened Options
  import opened GcovIo
  import opened GcdaCursor
  import opened GcdaWalk

  const BLOCK_SIZE := 1024

  /** A request of at most 2^26 words never makes the buffer too large. */
  const MAX_REQUEST := 0x400_0000

  class GcdaFile {
    // The file on disk: whole words, plus up to three trailing bytes.
    const openable: bool
    const image: seq<bv32>
    const slack: nat

    // The open stream and its byte offset.
    var file: bool
    var cursor: nat

    // The read window.
    var start: nat
    var offset: nat
    var length: nat
    var overread: nat
    var error: int
    var endian: bool
    var alloc: nat
    var buffer: seq<bv32>

    ghost predicate Valid()
      reads this
    {
      && slack < 4 && |image| < WORD_LIMIT
      && |buffer| == alloc < WORD_LIMIT
      && (file ==> offset <= length <= alloc && WindowMatchesFile())
    }

    /** The buffer holds the words of the file from `start`, and the stream continues there. */
    ghost predicate WindowMatchesFile()
      reads this
      requires |buffer| == alloc && offset <= length <= alloc
    {
      && start < WORD_LIMIT
      && (length > 0 ==> start + length <= |image|)
      && (forall i :: 0 <= i < length ==> buffer[i] == image[start + i])
      && (|| cursor == 4 * (start + length)
          || (cursor == EndOfFile() && start + length == |image|)
          || (cursor == EndOfFile() && length == 0 && start < |image|))
    }

    ghost function EndOfFile(): nat
      reads this
    {
      4 * |image| + slack
    }

    /** The unbuffered cursor this reader stands for. */
    ghost function Abs(): Cursor
      reads this
    {
      Cursor(start + offset, length == 0 && start < |image| && cursor != 4 * start)
    }

    constructor (image: seq<bv32>, slack: nat, openable: bool)
      requires slack < 4 && |image| < WORD_LIMIT
      ensures Valid() && !file
      ensures this.image == image && this.slack == slack && this.openable == openable
    {
      this.image, this.slack, this.openable := image, slack, openable;
      file, cursor := false, 0;
      start, offset, length, overread, error, endian, alloc := 0, 0, 0, 0, 0, false, 0;
      buffer := [];
    }

    method Open() returns (ok: bool)
      requires Valid()
      modifies this
      ensures Valid()
      ensures ok == (old(!file) && openable)
      ensures ok ==> file && error == 0 && !endian && Abs() == Cursor(0, false)
      ensures !ok ==> file == old(file)
    {
      if file { return false; }
      cursor, start, offset, length, error, endian, alloc := 0, 0, 0, 0, 0, false, 0;
      overread := U32 - 1;
      buffer := [];
      file := openable;
      return openable;
    }

    method Close() returns (e: int)
      requires Valid()
      modifies this
      ensures Valid() && !file && e == error == old(error) && endian == old(endian)
    {
      if file {
        file := false;
        length := 0;
      }
      buffer := [];
      alloc := 0;
      return error;
    }

    function Position(): nat
      reads this
    {
      (start + offset) % U32
    }

    lemma PositionIsAbs()
      requires Valid() && file
      ensures Position() == Abs().pos
    {
    }

    function IsError(): int
      reads this
    {
      if file then error else 1
    }

    function FromFile(w: bv32): bv32
      reads this
    {
      Decode(endian, w)
    }

    /** Serving the request needs no buffer of 2^30 words, whose byte count would not fit 32 bits. */
    predicate CanBuffer(words: nat)
      reads this
    {
      var unread := length - offset;
      || words <= unread || unread + words <= alloc
      || 2 * ((if alloc == 0 then BLOCK_SIZE else alloc) + unread + words) < WORD_LIMIT
    }

    lemma SmallRequest(words: nat)
      requires Valid() && file && words <= MAX_REQUEST
      ensures CanBuffer(words)
    {
    }

    /** Grows the buffer, keeping its contents. */
    method Allocate(request: nat)
      requires |buffer| == alloc
      modifies this`alloc, this`buffer
      ensures alloc == 2 * ((if old(alloc) == 0 then BLOCK_SIZE else old(alloc)) + request)
      ensures |buffer| == alloc && old(buffer) <= buffer
    {
      var newSize := alloc;
      if newSize == 0 { newSize := BLOCK_SIZE; }
      newSize := 2 * (newSize + request);
      buffer := buffer + seq(newSize - alloc, _ => 0);
      alloc := newSize;
    }

    /** Slides the unread words to the front of the buffer. */
    method Compact()
      requires Valid() && file
      modifies this`start, this`offset, this`length, this`buffer
      ensures Valid() && offset == 0 && length == old(length - offset)
      ensures start == old(start + offset)
      ensures Abs() == old(Abs())
    {
      var excess := length - offset;
      buffer := buffer[offset..length] + buffer[excess..];
      start := start + offset;
      offset := 0;
      length := excess;
    }

    /** `fread` into the free part of the buffer: short only at the end of the file. */
    method Fill()
      requires Valid() && file && offset == 0
      modifies this`length, this`cursor, this`buffer
      ensures Valid()
      ensures length - old(length) == (var rest := if old(Abs()).drained || old(start + length) > |image| then 0
                                       else |image| - old(start + length);
                                       if rest < alloc - old(length) then rest else alloc - old(length))
      ensures !old(Abs().drained) ==> !Abs().drained
      ensures length == 0 && old(Abs().drained) ==> Abs().drained
      ensures length < alloc && start + length <= |image| ==> cursor == EndOfFile()
    {
      var room := 4 * (alloc - length);
      var left := if cursor <= 4 * |image| + slack then 4 * |image| + slack - cursor else 0;
      var got := if left < room then left else room;
      var words := got / 4;
      assert words > 0 ==> cursor == 4 * (start + length);
      var at := cursor / 4;
      if words > 0 {
        buffer := buffer[..length] + image[at..at + words] + buffer[length + words..];
      }
      cursor := cursor + got;
      length := length + words;
    }
  
    /**
      Reads `words` consecutive words, or nothing when the file is closed or has too few
      left.  Exactly the unbuffered cursor, wherever the refills fall.
     */
    method ReadWords(words: nat) returns (r: Option<seq<bv32>>)
      requires Valid() && (file ==> CanBuffer(words))
      modifies this`cursor, this`start, this`offset, this`length, this`overread, this`alloc, this`buffer
      ensures Valid()
      ensures !file ==> r == None && Abs() == old(Abs())
      ensures file ==> Abs() == Read(image, old(Abs()), words).0 && r == Read(image, old(Abs()), words).1
    {
      hide GcdaFile.CanBuffer;
      if !file { return None; }
      if length - offset < words {
        Refill(words);
        if length < words {
          overread := (overread + words - length) % U32;
          length := 0;
          return None;
        }
      }
      var taken := Take(words);
      return Some(taken);
    }

    /** Hands out words that are already buffered. */
    method Take(words: nat) returns (s: seq<bv32>)
      requires Valid() && file && words <= length - offset
      modifies this`offset
      ensures Valid() && Abs() == Cursor(old(Abs().pos) + words, old(Abs().drained))
      ensures words == 0 ==> s == []
      ensures words > 0 ==> start + offset <= |image| && s == image[start + offset - words..start + offset]
    {
      if words > 0 { WindowSlice(buffer, image, start, length, offset, words); }
      s := buffer[offset..offset + words];
      offset := offset + words;
    }

    /** Makes room for `words` words and reads on; afterwards they are buffered iff the file has them. */
    method Refill(words: nat)
      requires Valid() && file && length - offset < words && CanBuffer(words)
      modifies this`cursor, this`start, this`offset, this`length, this`alloc, this`buffer
      ensures Valid()
      ensures offset == 0 && start == old(start + offset)
      ensures words <= length <==> words <= Available(image, old(Abs()))
      ensures length < words && start < |image| ==> cursor == EndOfFile()
      ensures length < words && start >= |image| ==> length == 0
      ensures length < words && cursor == 4 * start ==> start >= |image| 
    {
      Compact();
      if length + words > alloc {
        Grow(length + words);
      }
      Fill();
    }

    /** `Allocate` on a compacted window: the window does not change. */
    method Grow(request: nat)
      requires Valid() && file && offset == 0
      requires alloc < request && 2 * ((if alloc == 0 then BLOCK_SIZE else alloc) + request) < WORD_LIMIT
      modifies this`alloc, this`buffer
      ensures Valid() && request <= alloc
      ensures Abs() == old(Abs())
    {
      Allocate(request);
    }

    /** The words of the file as the reader decodes them. */
    ghost function Words(): seq<nat>
      reads this
    {
      Decoded(image, endian)
    }

    method ReadUnsigned() returns (w: nat)
      requires Valid()
      modifies this`cursor, this`start, this`offset, this`length, this`overread, this`alloc, this`buffer
      ensures Valid()
      ensures !file ==> w == 0 && Abs() == old(Abs())
      ensures file && !old(Abs()).drained ==>
                && w == At(Words(), old(Abs()).pos)
                && Abs() == Cursor(if old(Abs()).pos < |image| then old(Abs()).pos + 1 else old(Abs()).pos, false)
      ensures file && old(Abs()).drained ==> w == 0 && Abs() == old(Abs())
      ensures w < U32
    {
      if file { SmallRequest(1); }
      var r := ReadWords(1);
      if r == None { return 0; }
      return Number(FromFile(r.value[0]));
    }

    /**
      Moves to `base + length`, inside the window when it is there and by a seek otherwise.
      Both cases are the same move of the unbuffered cursor.
     */
    method Sync(base: nat, len: nat)
      requires Valid() && base < U32 && len < U32
      modifies this`cursor, this`start, this`offset, this`length
      ensures Valid()
      ensures !file ==> Abs() == old(Abs())
      ensures file ==> Abs() == Seek(old(Abs()), base, len)
    {
      if !file { return; }
      LandingTwice(base + len);
      MoveTo((base + len) % U32);
    }

    method MoveTo(target: nat)
      requires Valid() && file && target < U32
      modifies this`cursor, this`start, this`offset, this`length
      ensures Valid()
      ensures Abs() == if old(Abs()) == Cursor(target, true) then old(Abs()) else Cursor(Landing(target), false)
    {
      hide Landing;
      hide InWindow;
      WindowTest(start, length, target);
      SmallLanding(target);
      if InWindow(start, length, target) {
        offset := (target - start) % U32;
      } else {
        ByteOffsetLanding(target);
        offset, length := 0, 0;
        cursor := (target * 4) % U32;
        start := cursor / 4;
      }
    }

    /** Compares a magic word in both byte orders and remembers a swapped file. */
    method Magic(magic: nat, expected: nat) returns (r: int)
      requires Valid() && magic < U32 && expected < U32
      modifies this`endian
      ensures Valid() && Abs() == old(Abs())
      ensures r == 1 <==> magic == expected
      ensures r == -1 <==> magic != expected && Swap(Bits(magic)) == Bits(expected)
      ensures r == 0 <==> magic != expected && Swap(Bits(magic)) != Bits(expected)
      ensures endian == (old(endian) || r == -1)
    {
      if magic == expected { return 1; }
      if Swap(Bits(magic)) == Bits(expected) {
        endian := true;
        return -1;
      }
      return 0;
    }

    /** Every script of reads and synchronisations is indistinguishable from the cursor. */
    method Replay(ops: seq<Op>) returns (seen: seq<Observation>)
      requires Valid() && file
      requires forall op :: op in ops ==> InRange(op)
      modifies this`cursor, this`start, this`offset, this`length, this`overread, this`alloc, this`buffer
      ensures Valid()
      ensures (Abs(), seen) == Run(image, old(Abs()), ops)
    {
      seen := [];
      ghost var c := Abs();
      for i := 0 to |ops|
        invariant Valid()
        invariant (Abs(), seen) == Run(image, c, ops[..i])
      {
        RunExtend(image, c, ops, i);
        var o := Apply(ops[i]);
        seen := seen + [o];
      }
      assert ops[..|ops|] == ops;
    }

    method Apply(op: Op) returns (o: Observation)
      requires Valid() && file && InRange(op)
      modifies this`cursor, this`start, this`offset, this`length, this`overread, this`alloc, this`buffer
      ensures Valid()
      ensures Abs() == RunOne(image, old(Abs()), op).0 && o == RunOne(image, old(Abs()), op).1
    {
      var r := None;
      match op {
        case ReadOp(words) =>
          SmallRequest(words);
          r := ReadWords(words);
        case SyncOp(base, len) =>
          Sync(base, len);
      }
      PositionIsAbs();
      o := Observation(r, Position());
    }
  }

  /** Words handed out of a window are words of the file. */
  lemma WindowSlice(buffer: seq<bv32>, image: seq<bv32>, start: nat, length: nat, offset: nat, words: nat)
    requires offset + words <= length <= |buffer| && start + length <= |image|
    requires forall i :: 0 <= i < length ==> buffer[i] == image[start + i]
    ensures buffer[offset..offset + words] == image[start + offset..start + offset + words]
  {
    var s, t := buffer[offset..offset + words], image[start + offset..start + offset + words];
    forall i | 0 <= i < words
      ensures s[i] == t[i]
    {
      assert buffer[offset + i] == image[start + (offset + i)];
    }
  }

  /** Requests that every state of the reader can serve: 32-bit targets, and reads of at most `MAX_REQUEST` words. */
  predicate InRange(op: Op) {
    match op
    case ReadOp(words) => words <= MAX_REQUEST
    case SyncOp(base, length) => base < U32 && length < U32
  }

  lemma RunExtend(image: seq<bv32>, c: Cursor, ops: seq<Op>, i: nat)
    requires i < |ops|
    ensures Run(image, c, ops[..i + 1]) ==
            (var (c', before) := Run(image, c, ops[..i]);
             var (c'', o) := RunOne(image, c', ops[i]);
             (c'', before + [o]))
  {
    assert ops[..i + 1][..i] == ops[..i];
  }
}
