/**
  Word-level layout of gcov data files: the magic number, the record tags, the tag
  arithmetic and the byte-order swap.  Tags are hierarchical: a tag whose low 24, 16, 8 or 0
  bits are clear sits at depth 1, 2, 3 or 4.
 */
module GcovIo {

  const DATA_MAGIC: bv32 := 0x6763_6461  // "gcda"
  const TAG_LINES: bv32 := 0x0145_0000

  /** Lowest set bit and everything below it. */
  function TagMask(tag: bv32): bv32 {
    (tag - 1) ^ tag
  }

  /** The bits of a word that are kept. */
  function Kept(w: bv32, keep: bv32): bv32 {
    w & keep
  }

  /** The two words are equal on every bit outside `mask`. */
  predicate AgreeOutside(s: bv32, t: bv32, mask: bv32) {
    Kept(s ^ t, !mask) == 0
  }

  predicate IsSubtag(tag: bv32, sub: bv32) {
    && TagMask(tag) >> 8 == TagMask(sub)
    && AgreeOutside(sub, tag, TagMask(tag))
  }

  /** Reverses the bytes of a word by swapping halves and then bytes within halves. */
  function Swap(w: bv32): bv32 {
    var h := (w >> 16) | (w << 16);
    ((h & 0x00ff_00ff) << 8) | ((h >> 8) & 0x00ff_00ff)
  }

  lemma SwapReversesBytes(w: bv32)
    ensures Swap(w) & 0xff == w >> 24
    ensures (Swap(w) >> 8) & 0xff == (w >> 16) & 0xff
    ensures (Swap(w) >> 16) & 0xff == (w >> 8) & 0xff
    ensures Swap(w) >> 24 == w & 0xff
    ensures Swap(Swap(w)) == w
    ensures Swap(w) == 0 <==> w == 0
  {
  }

  // ---- Reference meaning of the mask arithmetic -------------------------------------------

  /** `k` low one-bits. */
  function Ones(k: nat): bv32
    requires k <= 32
  {
    if k == 0 then 0 else (Ones(k - 1) << 1) | 1
  }

  /** The `k` lowest bits of `t` are zero. */
  predicate LowBitsClear(t: bv32, k: nat)
    requires k <= 32
  {
    t & Ones(k) == 0
  }

  /** Bit `k` is the lowest set bit of `t`. */
  predicate LowestSetBitIs(t: bv32, k: nat) {
    k < 32 && LowBitsClear(t, k) && !LowBitsClear(t, k + 1)
  }

  /** The number of trailing zero bits of a non-zero word, found by scanning upwards. */
  function TrailingZeros(t: bv32): (k: nat)
    requires t != 0
    ensures k < 32
  {
    ScanZeros(t, 0)
  }

  function ScanZeros(t: bv32, from: nat): (k: nat)
    requires t != 0 && from < 32 && LowBitsClear(t, from)
    ensures k < 32
    decreases 32 - from
  {
    if !LowBitsClear(t, from + 1) then from
    else
      NotAllClear(t, from + 1);
      ScanZeros(t, from + 1)
  }

  lemma {:induction false} ScanFindsLowestBit(t: bv32, from: nat)
    requires t != 0 && from < 32 && LowBitsClear(t, from)
    ensures LowestSetBitIs(t, ScanZeros(t, from))
    decreases 32 - from
  {
    if LowBitsClear(t, from + 1) {
      NotAllClear(t, from + 1);
      ScanFindsLowestBit(t, from + 1);
    }
  }

  lemma OnesTable()
    ensures Ones(0) == 0 && Ones(1) == 1 && Ones(2) == 3 && Ones(3) == 7
    ensures Ones(4) == 0xf && Ones(5) == 0x1f && Ones(6) == 0x3f && Ones(7) == 0x7f
    ensures Ones(8) == 0xff && Ones(9) == 0x1ff && Ones(10) == 0x3ff && Ones(11) == 0x7ff
    ensures Ones(12) == 0xfff && Ones(13) == 0x1fff && Ones(14) == 0x3fff && Ones(15) == 0x7fff
    ensures Ones(16) == 0xffff && Ones(17) == 0x1_ffff && Ones(18) == 0x3_ffff && Ones(19) == 0x7_ffff
    ensures Ones(20) == 0xf_ffff && Ones(21) == 0x1f_ffff && Ones(22) == 0x3f_ffff && Ones(23) == 0x7f_ffff
    ensures Ones(24) == 0xff_ffff && Ones(25) == 0x1ff_ffff && Ones(26) == 0x3ff_ffff && Ones(27) == 0x7ff_ffff
    ensures Ones(28) == 0xfff_ffff && Ones(29) == 0x1fff_ffff && Ones(30) == 0x3fff_ffff && Ones(31) == 0x7fff_ffff
    ensures Ones(32) == 0xffff_ffff
  {
    assert Ones(1) == 1;
    assert Ones(2) == 3; assert Ones(3) == 7; assert Ones(4) == 0xf; assert Ones(5) == 0x1f;
    assert Ones(6) == 0x3f; assert Ones(7) == 0x7f; assert Ones(8) == 0xff; assert Ones(9) == 0x1ff;
    assert Ones(10) == 0x3ff; assert Ones(11) == 0x7ff; assert Ones(12) == 0xfff; assert Ones(13) == 0x1fff;
    assert Ones(14) == 0x3fff; assert Ones(15) == 0x7fff; assert Ones(16) == 0xffff; assert Ones(17) == 0x1_ffff;
    assert Ones(18) == 0x3_ffff; assert Ones(19) == 0x7_ffff; assert Ones(20) == 0xf_ffff; assert Ones(21) == 0x1f_ffff;
    assert Ones(22) == 0x3f_ffff; assert Ones(23) == 0x7f_ffff; assert Ones(24) == 0xff_ffff;
    assert Ones(25) == 0x1ff_ffff;
    assert Ones(26) == 0x3ff_ffff; assert Ones(27) == 0x7ff_ffff; assert Ones(28) == 0xfff_ffff;
    assert Ones(29) == 0x1fff_ffff;
    assert Ones(30) == 0x3fff_ffff; assert Ones(31) == 0x7fff_ffff;
  }

  lemma NotAllClear(t: bv32, k: nat)
    requires k <= 32 && t != 0 && LowBitsClear(t, k)
    ensures k < 32
  {
    OnesTable();
  }

  /** One byte of low ones is consumed by each 8-bit shift. */
  lemma OnesByte(k: nat)
    requires k < 32
    ensures Ones(k) == 0 <==> k == 0
    ensures Ones(k) & 0xff == 0xff <==> k >= 8
    ensures Ones(k) >> 8 == if k >= 8 then Ones(k - 8) else 0
  {
    OnesTable();
  }

  /** A run of ones identifies its length. */
  lemma OnesInjective(j: nat, k: nat)
    requires j <= 32 && k <= 32
    ensures Ones(j) == Ones(k) <==> j == k
  {
    OnesTable();
  }

  /** The mask of a non-zero tag covers exactly its trailing zeros and its lowest set bit. */
  lemma TagMaskIsOnes(tag: bv32)
    requires tag != 0
    ensures TagMask(tag) == Ones(TrailingZeros(tag) + 1)
    ensures TagMask(tag) >> 1 == Ones(TrailingZeros(tag))
  {
    ScanFindsLowestBit(tag, 0);
    MaskFromLowestBit(tag, TrailingZeros(tag));
  }

  lemma MaskFromLowestBit(tag: bv32, k: nat)
    requires LowestSetBitIs(tag, k)
    ensures TagMask(tag) == Ones(k + 1)
    ensures TagMask(tag) >> 1 == Ones(k)
  {
    OnesTable();
  }

  /** Depth of a tag in the hierarchy, from its trailing zero count. */
  function TagDepth(tag: bv32): (d: nat)
    requires tag != 0
    ensures 1 <= d <= 4
  {
    4 - TrailingZeros(tag) / 8
  }

  /** A tag is aligned when its trailing zeros fill whole bytes. */
  predicate Aligned(tag: bv32)
    requires tag != 0
  {
    TrailingZeros(tag) % 8 == 0
  }

  /** Equal once the bits of the mask are cleared. */
  predicate EqualOutside(s: bv32, t: bv32, mask: bv32) {
    Kept(s, !mask) == Kept(t, !mask)
  }

  lemma AgreeOutsideMeaning(s: bv32, t: bv32, mask: bv32)
    ensures AgreeOutside(s, t, mask) <==> EqualOutside(s, t, mask)
  {
    hide Kept;
    SameWhereKept(s, t, !mask);
  }

  lemma SameWhereKept(s: bv32, t: bv32, keep: bv32)
    ensures Kept(s ^ t, keep) == 0 <==> Kept(s, keep) == Kept(t, keep)
  {
  }

  lemma OneByteLower(j: nat, k: nat)
    requires j < 32 && k < 32
    ensures Ones(j + 1) >> 8 == Ones(k + 1) <==> j == k + 8
  {
    if j < 31 {
      OnesByte(j + 1);
    } else {
      OnesTable();
    }
    OnesInjective(if j >= 7 then j - 7 else 0, k + 1);
  }

  /**
    The subtag test holds exactly when the subtag's lowest set bit is one byte below the
    tag's and the two agree on every bit above the tag's lowest set bit.
   */
  lemma SubtagMeaning(tag: bv32, sub: bv32)
    requires tag != 0 && sub != 0
    ensures IsSubtag(tag, sub) <==>
            && TrailingZeros(tag) == TrailingZeros(sub) + 8
            && AgreeOutside(sub, tag, Ones(TrailingZeros(tag) + 1))
  {
    TagMaskIsOnes(tag);
    TagMaskIsOnes(sub);
    OneByteLower(TrailingZeros(tag), TrailingZeros(sub));
  }
}
