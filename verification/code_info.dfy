/** The part of the CodeInfo header that the stack-map accessors consult: each
    record field's byte width and offset, the stack mask's place, and whether
    the table carries inline info at all. How stack_map.h computes these
    (NumberOfBytesFor*, ComputeStackMap*Offset) is not part of this model;
    they are taken as given, constrained only by CodeInfo.Fits. */
module CodeInfoHeader {
  import opened Memory

  /** A byte range of a stack-map record. */
  datatype Slot = Slot(offset: nat, width: nat) {
    function End(): nat { offset + width }

    /** Byte `i` lies in the range. */
    predicate Covers(i: int) {
      offset <= i < End()
    }

    /** Shares no byte with `other`. */
    predicate DisjointFrom(other: Slot) {
      forall i | offset <= i < End() :: !other.Covers(i)
    }
  }

  datatype CodeInfo = CodeInfo(
    hasInlineInfo: bool,
    stackMask: Slot,        // the stack mask's bytes; its width is GetStackMaskSize()
    inlineInfo: Slot,
    dexRegisterMap: Slot,
    dexPc: Slot,
    nativePc: Slot,
    registerMask: Slot)
  {
    /** The header describes records of `size` bytes: every coded field is at
        most 4 bytes wide, every field lies inside the record and no two
        fields share a byte. */
    predicate Fits(size: nat) {
      inlineInfo.width <= 4 && dexRegisterMap.width <= 4 && dexPc.width <= 4 &&
      nativePc.width <= 4 && registerMask.width <= 4 &&
      stackMask.End() <= size && inlineInfo.End() <= size && dexRegisterMap.End() <= size &&
      dexPc.End() <= size && nativePc.End() <= size && registerMask.End() <= size &&
      stackMask.DisjointFrom(inlineInfo) && stackMask.DisjointFrom(dexRegisterMap) &&
      stackMask.DisjointFrom(dexPc) && stackMask.DisjointFrom(nativePc) &&
      stackMask.DisjointFrom(registerMask) &&
      inlineInfo.DisjointFrom(dexRegisterMap) && inlineInfo.DisjointFrom(dexPc) &&
      inlineInfo.DisjointFrom(nativePc) && inlineInfo.DisjointFrom(registerMask) &&
      dexRegisterMap.DisjointFrom(dexPc) && dexRegisterMap.DisjointFrom(nativePc) &&
      dexRegisterMap.DisjointFrom(registerMask) &&
      dexPc.DisjointFrom(nativePc) && dexPc.DisjointFrom(registerMask) &&
      nativePc.DisjointFrom(registerMask)
    }
  }

  /** `width` is the least number of bytes whose range covers `x`. */
  predicate IsLeastWidth(width: nat, x: nat) {
    width <= 4 && x < Pow256(width) && (width == 0 || Pow256(width - 1) <= x)
  }

  /** CodeInfo::EncodingSizeInBytes: the byte width a field needs so that
      every value up to `maxElement` fits. */
  function EncodingSizeInBytes(maxElement: nat): (width: nat)
    requires maxElement < 0x1_0000_0000
    ensures IsLeastWidth(width, maxElement)
    ensures width == 0 <==> maxElement == 0
  {
    assert Pow256(1) == 0x100 && Pow256(2) == 0x1_0000;
    assert Pow256(3) == 0x100_0000 && Pow256(4) == 0x1_0000_0000;
    if maxElement == 0 then 0
    else if maxElement < 0x100 then 1
    else if maxElement < 0x1_0000 then 2
    else if maxElement < 0x100_0000 then 3
    else 4
  }

  lemma {:induction false} Pow256Monotone(a: nat, b: nat)
    requires a <= b
    ensures Pow256(a) <= Pow256(b)
    decreases b
  {
    if a < b {
      Pow256Monotone(a, b - 1);
    }
  }

  /** There is only one least width for a value. */
  lemma LeastWidthUnique(w1: nat, w2: nat, x: nat)
    requires IsLeastWidth(w1, x) && IsLeastWidth(w2, x)
    ensures w1 == w2
  {
    if w1 < w2 {
      Pow256Monotone(w1, w2 - 1);
    } else if w2 < w1 {
      Pow256Monotone(w2, w1 - 1);
    }
  }

  /** The least width is no wider than any width whose range holds the value. */
  lemma LeastWidthIsLeast(least: nat, width: nat, x: nat)
    requires IsLeastWidth(least, x) && x < Pow256(width)
    ensures least <= width
  {
    if width < least {
      Pow256Monotone(width, least - 1);
    }
  }

  /** Sizing by the table-wide maximum is safe: every value up to the maximum
      fits the chosen width, and a larger maximum never picks a narrower one. */
  lemma EncodingSizeCoversUpToMax(v: nat, maxElement: nat)
    requires v <= maxElement < 0x1_0000_0000
    ensures v < Pow256(EncodingSizeInBytes(maxElement))
    ensures EncodingSizeInBytes(v) <= EncodingSizeInBytes(maxElement)
  {
  }

  /** The widths the table header picks for some sample maxima. */
  lemma EncodingSizeInBytesSamples()
    ensures EncodingSizeInBytes(0) == 0
    ensures EncodingSizeInBytes(255) == 1 && EncodingSizeInBytes(256) == 2
    ensures EncodingSizeInBytes(65535) == 2 && EncodingSizeInBytes(65536) == 3
    ensures EncodingSizeInBytes(16777215) == 3 && EncodingSizeInBytes(16777216) == 4
  {
  }
}
