/** StackMap of runtime/stack_map.cc: one fixed-size record per safepoint,
    whose fields are read and written through the variable-width codec at the
    widths and offsets the CodeInfo header gives. */
module StackMaps {
  import opened Memory
  import opened FieldCodec
  import opened CodeInfoHeader

  /** kNoDexRegisterMap and kNoInlineInfo (declared in stack_map.h as -1). */
  const NoDexRegisterMap: uint32 := NoValue
  const NoInlineInfo: uint32 := NoValue

  /** A stack map is a window onto the buffer that holds the whole table.
      Like the MemoryRegion it wraps, it is passed by value; its setters
      write through to the shared buffer. */
  datatype StackMap = StackMap(region: MemoryRegion)
  {
    function GetDexPc(info: CodeInfo): (dexPc: uint32)
      reads region.buf
      requires region.Valid() && info.Fits(region.size)
      ensures dexPc as int == LoadUnaligned(region.Bytes(), info.dexPc.offset, info.dexPc.width)
    {
      LoadAt(region.Bytes(), info.dexPc.width, info.dexPc.offset, false)
    }

    function GetNativePcOffset(info: CodeInfo): (nativePcOffset: uint32)
      reads region.buf
      requires region.Valid() && info.Fits(region.size)
      ensures nativePcOffset as int == LoadUnaligned(region.Bytes(), info.nativePc.offset, info.nativePc.width)
    {
      LoadAt(region.Bytes(), info.nativePc.width, info.nativePc.offset, false)
    }

    /** The offset of this safepoint's dex register map, or NoDexRegisterMap
        when the field holds its all-ones pattern. */
    function GetDexRegisterMapOffset(info: CodeInfo): (offset: uint32)
      reads region.buf
      requires region.Valid() && info.Fits(region.size)
      requires info.dexRegisterMap.width != 0
      ensures offset == NoDexRegisterMap
          <==> LoadUnaligned(region.Bytes(), info.dexRegisterMap.offset, info.dexRegisterMap.width)
               == AllOnes(info.dexRegisterMap.width)
      ensures offset != NoDexRegisterMap
          ==> offset as int == LoadUnaligned(region.Bytes(), info.dexRegisterMap.offset, info.dexRegisterMap.width)
    {
      LoadAt(region.Bytes(), info.dexRegisterMap.width, info.dexRegisterMap.offset, true)
    }

    /** The offset of this safepoint's inline info: NoInlineInfo whenever the
        table has no inline info, whatever the record's bytes, and otherwise
        decoded like the dex register map offset. */
    function GetInlineDescriptorOffset(info: CodeInfo): (offset: uint32)
      reads region.buf
      requires region.Valid() && info.Fits(region.size)
      requires info.hasInlineInfo ==> info.inlineInfo.width != 0
      ensures !info.hasInlineInfo ==> offset == NoInlineInfo
      ensures info.hasInlineInfo ==>
        (offset == NoInlineInfo <==>
           LoadUnaligned(region.Bytes(), info.inlineInfo.offset, info.inlineInfo.width)
           == AllOnes(info.inlineInfo.width))
      ensures info.hasInlineInfo && offset != NoInlineInfo
          ==> offset as int == LoadUnaligned(region.Bytes(), info.inlineInfo.offset, info.inlineInfo.width)
    {
      if !info.hasInlineInfo then NoInlineInfo
      else LoadAt(region.Bytes(), info.inlineInfo.width, info.inlineInfo.offset, true)
    }

    function GetRegisterMask(info: CodeInfo): (mask: uint32)
      reads region.buf
      requires region.Valid() && info.Fits(region.size)
      ensures mask as int == LoadUnaligned(region.Bytes(), info.registerMask.offset, info.registerMask.width)
    {
      LoadAt(region.Bytes(), info.registerMask.width, info.registerMask.offset, false)
    }

    /** The stack mask as a window onto the same buffer (not a copy): its
        bytes are the record's bytes at the stack mask's place. */
    function GetStackMask(info: CodeInfo): (mask: MemoryRegion)
      reads region.buf
      requires region.Valid() && info.Fits(region.size)
      ensures mask.Valid() && mask.buf == region.buf
      ensures mask.start == region.start + info.stackMask.offset && mask.size == info.stackMask.width
      ensures mask.Bytes() == region.Bytes()[info.stackMask.offset..info.stackMask.End()]
    {
      region.Subregion(info.stackMask.offset, info.stackMask.width)
    }

    method SetDexPc(info: CodeInfo, dexPc: uint32)
      requires region.Valid() && info.Fits(region.size)
      requires info.dexPc.width == 0 ==> dexPc == 0
      modifies region.buf
      ensures region.Bytes() == StoredField(old(region.Bytes()), info.dexPc.width, info.dexPc.offset, dexPc)
      ensures forall i :: 0 <= i < region.buf.Length && !(region.start <= i < region.start + region.size)
                      ==> region.buf[i] == old(region.buf[i])
      ensures dexPc as int < Pow256(info.dexPc.width) ==> GetDexPc(info) == dexPc
      ensures GetNativePcOffset(info) == old(GetNativePcOffset(info))
      ensures info.dexRegisterMap.width != 0 ==> GetDexRegisterMapOffset(info) == old(GetDexRegisterMapOffset(info))
      ensures (info.hasInlineInfo ==> info.inlineInfo.width != 0)
          ==> GetInlineDescriptorOffset(info) == old(GetInlineDescriptorOffset(info))
      ensures GetRegisterMask(info) == old(GetRegisterMask(info))
      ensures GetStackMask(info).Bytes() == old(GetStackMask(info).Bytes())
    {
      ghost var before := region.Bytes();
      StoreAt(region, info.dexPc.width, info.dexPc.offset, dexPc);
      LoadAfterStore(before, info.dexPc.width, info.dexPc.offset, dexPc);
      FieldKept(before, info.dexPc, dexPc, info.nativePc);
      FieldKept(before, info.dexPc, dexPc, info.dexRegisterMap);
      FieldKept(before, info.dexPc, dexPc, info.inlineInfo);
      FieldKept(before, info.dexPc, dexPc, info.registerMask);
      MaskKept(before, info.dexPc, dexPc, info.stackMask);
    }

    method SetNativePcOffset(info: CodeInfo, nativePcOffset: uint32)
      requires region.Valid() && info.Fits(region.size)
      requires info.nativePc.width == 0 ==> nativePcOffset == 0
      modifies region.buf
      ensures region.Bytes() == StoredField(old(region.Bytes()), info.nativePc.width, info.nativePc.offset, nativePcOffset)
      ensures forall i :: 0 <= i < region.buf.Length && !(region.start <= i < region.start + region.size)
                      ==> region.buf[i] == old(region.buf[i])
      ensures nativePcOffset as int < Pow256(info.nativePc.width) ==> GetNativePcOffset(info) == nativePcOffset
      ensures GetDexPc(info) == old(GetDexPc(info))
      ensures info.dexRegisterMap.width != 0 ==> GetDexRegisterMapOffset(info) == old(GetDexRegisterMapOffset(info))
      ensures (info.hasInlineInfo ==> info.inlineInfo.width != 0)
          ==> GetInlineDescriptorOffset(info) == old(GetInlineDescriptorOffset(info))
      ensures GetRegisterMask(info) == old(GetRegisterMask(info))
      ensures GetStackMask(info).Bytes() == old(GetStackMask(info).Bytes())
    {
      ghost var before := region.Bytes();
      StoreAt(region, info.nativePc.width, info.nativePc.offset, nativePcOffset);
      LoadAfterStore(before, info.nativePc.width, info.nativePc.offset, nativePcOffset);
      FieldKept(before, info.nativePc, nativePcOffset, info.dexPc);
      FieldKept(before, info.nativePc, nativePcOffset, info.dexRegisterMap);
      FieldKept(before, info.nativePc, nativePcOffset, info.inlineInfo);
      FieldKept(before, info.nativePc, nativePcOffset, info.registerMask);
      MaskKept(before, info.nativePc, nativePcOffset, info.stackMask);
    }

    /** Stores the dex register map offset; storing NoDexRegisterMap marks the
        safepoint as having no dex register map. */
    method SetDexRegisterMapOffset(info: CodeInfo, offset: uint32)
      requires region.Valid() && info.Fits(region.size)
      requires info.dexRegisterMap.width == 0 ==> offset == 0
      modifies region.buf
      ensures region.Bytes() == StoredField(old(region.Bytes()), info.dexRegisterMap.width, info.dexRegisterMap.offset, offset)
      ensures forall i :: 0 <= i < region.buf.Length && !(region.start <= i < region.start + region.size)
                      ==> region.buf[i] == old(region.buf[i])
      ensures info.dexRegisterMap.width != 0 && offset as int <= AllOnes(info.dexRegisterMap.width)
          ==> GetDexRegisterMapOffset(info)
              == if offset as int == AllOnes(info.dexRegisterMap.width) then NoDexRegisterMap else offset
      ensures info.dexRegisterMap.width != 0 && offset == NoDexRegisterMap
          ==> GetDexRegisterMapOffset(info) == NoDexRegisterMap
      ensures GetDexPc(info) == old(GetDexPc(info))
      ensures GetNativePcOffset(info) == old(GetNativePcOffset(info))
      ensures (info.hasInlineInfo ==> info.inlineInfo.width != 0)
          ==> GetInlineDescriptorOffset(info) == old(GetInlineDescriptorOffset(info))
      ensures GetRegisterMask(info) == old(GetRegisterMask(info))
      ensures GetStackMask(info).Bytes() == old(GetStackMask(info).Bytes())
    {
      ghost var before := region.Bytes();
      StoreAt(region, info.dexRegisterMap.width, info.dexRegisterMap.offset, offset);
      CheckedFieldStored(before, info.dexRegisterMap, offset);
      FieldKept(before, info.dexRegisterMap, offset, info.dexPc);
      FieldKept(before, info.dexRegisterMap, offset, info.nativePc);
      FieldKept(before, info.dexRegisterMap, offset, info.inlineInfo);
      FieldKept(before, info.dexRegisterMap, offset, info.registerMask);
      MaskKept(before, info.dexRegisterMap, offset, info.stackMask);
    }

    /** Stores the inline info offset; only a table with inline info has the field. */
    method SetInlineDescriptorOffset(info: CodeInfo, offset: uint32)
      requires region.Valid() && info.Fits(region.size)
      requires info.hasInlineInfo
      requires info.inlineInfo.width == 0 ==> offset == 0
      modifies region.buf
      ensures region.Bytes() == StoredField(old(region.Bytes()), info.inlineInfo.width, info.inlineInfo.offset, offset)
      ensures forall i :: 0 <= i < region.buf.Length && !(region.start <= i < region.start + region.size)
                      ==> region.buf[i] == old(region.buf[i])
      ensures info.inlineInfo.width != 0 && offset as int <= AllOnes(info.inlineInfo.width)
          ==> GetInlineDescriptorOffset(info)
              == if offset as int == AllOnes(info.inlineInfo.width) then NoInlineInfo else offset
      ensures info.inlineInfo.width != 0 && offset == NoInlineInfo
          ==> GetInlineDescriptorOffset(info) == NoInlineInfo
      ensures GetDexPc(info) == old(GetDexPc(info))
      ensures GetNativePcOffset(info) == old(GetNativePcOffset(info))
      ensures info.dexRegisterMap.width != 0 ==> GetDexRegisterMapOffset(info) == old(GetDexRegisterMapOffset(info))
      ensures GetRegisterMask(info) == old(GetRegisterMask(info))
      ensures GetStackMask(info).Bytes() == old(GetStackMask(info).Bytes())
    {
      ghost var before := region.Bytes();
      StoreAt(region, info.inlineInfo.width, info.inlineInfo.offset, offset);
      CheckedFieldStored(before, info.inlineInfo, offset);
      FieldKept(before, info.inlineInfo, offset, info.dexPc);
      FieldKept(before, info.inlineInfo, offset, info.nativePc);
      FieldKept(before, info.inlineInfo, offset, info.dexRegisterMap);
      FieldKept(before, info.inlineInfo, offset, info.registerMask);
      MaskKept(before, info.inlineInfo, offset, info.stackMask);
    }

    method SetRegisterMask(info: CodeInfo, mask: uint32)
      requires region.Valid() && info.Fits(region.size)
      requires info.registerMask.width == 0 ==> mask == 0
      modifies region.buf
      ensures region.Bytes() == StoredField(old(region.Bytes()), info.registerMask.width, info.registerMask.offset, mask)
      ensures forall i :: 0 <= i < region.buf.Length && !(region.start <= i < region.start + region.size)
                      ==> region.buf[i] == old(region.buf[i])
      ensures mask as int < Pow256(info.registerMask.width) ==> GetRegisterMask(info) == mask
      ensures GetDexPc(info) == old(GetDexPc(info))
      ensures GetNativePcOffset(info) == old(GetNativePcOffset(info))
      ensures info.dexRegisterMap.width != 0 ==> GetDexRegisterMapOffset(info) == old(GetDexRegisterMapOffset(info))
      ensures (info.hasInlineInfo ==> info.inlineInfo.width != 0)
          ==> GetInlineDescriptorOffset(info) == old(GetInlineDescriptorOffset(info))
      ensures GetStackMask(info).Bytes() == old(GetStackMask(info).Bytes())
    {
      ghost var before := region.Bytes();
      StoreAt(region, info.registerMask.width, info.registerMask.offset, mask);
      LoadAfterStore(before, info.registerMask.width, info.registerMask.offset, mask);
      FieldKept(before, info.registerMask, mask, info.dexPc);
      FieldKept(before, info.registerMask, mask, info.nativePc);
      FieldKept(before, info.registerMask, mask, info.dexRegisterMap);
      FieldKept(before, info.registerMask, mask, info.inlineInfo);
      MaskKept(before, info.registerMask, mask, info.stackMask);
    }
  }

  /** StackMap::ComputeStackMapSizeInternal: the record holds the stack mask
      and the five coded fields, and nothing else. */
  function ComputeStackMapSizeInternal(stackMaskSize: nat, numberOfBytesForInlineInfo: nat,
                                       numberOfBytesForDexMap: nat, numberOfBytesForDexPc: nat,
                                       numberOfBytesForNativePc: nat, numberOfBytesForRegisterMask: nat): (r: nat)
    ensures r == CanonicalLayout(true, stackMaskSize, numberOfBytesForInlineInfo, numberOfBytesForDexMap,
                                 numberOfBytesForDexPc, numberOfBytesForNativePc,
                                 numberOfBytesForRegisterMask).registerMask.End()
    ensures numberOfBytesForInlineInfo <= 4 && numberOfBytesForDexMap <= 4 && numberOfBytesForDexPc <= 4 &&
            numberOfBytesForNativePc <= 4 && numberOfBytesForRegisterMask <= 4
        ==> CanonicalLayout(true, stackMaskSize, numberOfBytesForInlineInfo, numberOfBytesForDexMap,
                            numberOfBytesForDexPc, numberOfBytesForNativePc, numberOfBytesForRegisterMask).Fits(r)
  {
    stackMaskSize + numberOfBytesForInlineInfo + numberOfBytesForDexMap + numberOfBytesForDexPc
      + numberOfBytesForNativePc + numberOfBytesForRegisterMask
  }

  /** The fields laid out one after another, in the order of
      ComputeStackMapSizeInternal's arguments: the stack mask, then the inline
      info, dex register map, dex pc, native pc and register mask fields. Any
      widths of at most 4 bytes give a header that fits a record ending where
      the register mask ends. */
  function CanonicalLayout(hasInlineInfo: bool, stackMaskSize: nat, inlineInfoWidth: nat,
                           dexRegisterMapWidth: nat, dexPcWidth: nat, nativePcWidth: nat,
                           registerMaskWidth: nat): (info: CodeInfo)
    ensures info.hasInlineInfo == hasInlineInfo
    ensures info.stackMask == Slot(0, stackMaskSize)
    ensures info.registerMask.End() == stackMaskSize + inlineInfoWidth + dexRegisterMapWidth
                                       + dexPcWidth + nativePcWidth + registerMaskWidth
    ensures inlineInfoWidth <= 4 && dexRegisterMapWidth <= 4 && dexPcWidth <= 4 &&
            nativePcWidth <= 4 && registerMaskWidth <= 4
        ==> info.Fits(info.registerMask.End())
  {
    var inlineInfo := Slot(stackMaskSize, inlineInfoWidth);
    var dexRegisterMap := Slot(inlineInfo.End(), dexRegisterMapWidth);
    var dexPc := Slot(dexRegisterMap.End(), dexPcWidth);
    var nativePc := Slot(dexPc.End(), nativePcWidth);
    var registerMask := Slot(nativePc.End(), registerMaskWidth);
    var info := CodeInfo(hasInlineInfo, Slot(0, stackMaskSize), inlineInfo, dexRegisterMap, dexPc,
                         nativePc, registerMask);
    Precedes(info.stackMask, inlineInfo);
    Precedes(info.stackMask, dexRegisterMap);
    Precedes(info.stackMask, dexPc);
    Precedes(info.stackMask, nativePc);
    Precedes(info.stackMask, registerMask);
    Precedes(inlineInfo, dexRegisterMap);
    Precedes(inlineInfo, dexPc);
    Precedes(inlineInfo, nativePc);
    Precedes(inlineInfo, registerMask);
    Precedes(dexRegisterMap, dexPc);
    Precedes(dexRegisterMap, nativePc);
    Precedes(dexRegisterMap, registerMask);
    Precedes(dexPc, nativePc);
    Precedes(dexPc, registerMask);
    Precedes(nativePc, registerMask);
    info
  }

  /** StackMap::ComputeStackMapSize: the record size for table-wide maxima.
      The inline-info field is absent when there is no inline info; the
      "+ 1"s keep room for kNoInlineInfo and kNoDexRegisterMap. */
  function ComputeStackMapSize(stackMaskSize: nat, inlineInfoSize: nat, dexRegisterMapSize: nat,
                               dexPcMax: nat, nativePcMax: nat, registerMaskMax: nat): (r: nat)
    requires inlineInfoSize != 0 ==> inlineInfoSize + dexRegisterMapSize + 1 < 0x1_0000_0000
    requires dexRegisterMapSize + 1 < 0x1_0000_0000
    requires dexPcMax < 0x1_0000_0000 && nativePcMax < 0x1_0000_0000 && registerMaskMax < 0x1_0000_0000
    ensures stackMaskSize + 1 <= r <= stackMaskSize + 20
    ensures r == stackMaskSize + ChosenWidths(inlineInfoSize, dexRegisterMapSize, dexPcMax, nativePcMax,
                                              registerMaskMax).Sum()
  {
    ComputeStackMapSizeInternal(
      stackMaskSize,
      if inlineInfoSize == 0 then 0
      else EncodingSizeInBytes(inlineInfoSize + dexRegisterMapSize + 1),
      EncodingSizeInBytes(dexRegisterMapSize + 1),
      EncodingSizeInBytes(dexPcMax),
      EncodingSizeInBytes(nativePcMax),
      EncodingSizeInBytes(registerMaskMax))
  }

  /** The byte width of each coded field. */
  datatype Widths = Widths(inlineInfo: nat, dexRegisterMap: nat, dexPc: nat, nativePc: nat, registerMask: nat)
  {
    function Sum(): nat {
      inlineInfo + dexRegisterMap + dexPc + nativePc + registerMask
    }
  }

  /** The widths the table picks: the least width holding each field's
      largest value, where the two offsets must also hold their sentinel. */
  ghost predicate IsChosen(w: Widths, inlineInfoSize: nat, dexRegisterMapSize: nat,
                           dexPcMax: nat, nativePcMax: nat, registerMaskMax: nat)
  {
    (if inlineInfoSize == 0 then w.inlineInfo == 0
     else IsLeastWidth(w.inlineInfo, inlineInfoSize + dexRegisterMapSize + 1)) &&
    IsLeastWidth(w.dexRegisterMap, dexRegisterMapSize + 1) &&
    IsLeastWidth(w.dexPc, dexPcMax) &&
    IsLeastWidth(w.nativePc, nativePcMax) &&
    IsLeastWidth(w.registerMask, registerMaskMax)
  }

  function ChosenWidths(inlineInfoSize: nat, dexRegisterMapSize: nat,
                        dexPcMax: nat, nativePcMax: nat, registerMaskMax: nat): (w: Widths)
    requires inlineInfoSize != 0 ==> inlineInfoSize + dexRegisterMapSize + 1 < 0x1_0000_0000
    requires dexRegisterMapSize + 1 < 0x1_0000_0000
    requires dexPcMax < 0x1_0000_0000 && nativePcMax < 0x1_0000_0000 && registerMaskMax < 0x1_0000_0000
    ensures IsChosen(w, inlineInfoSize, dexRegisterMapSize, dexPcMax, nativePcMax, registerMaskMax)
  {
    Widths(if inlineInfoSize == 0 then 0 else EncodingSizeInBytes(inlineInfoSize + dexRegisterMapSize + 1),
           EncodingSizeInBytes(dexRegisterMapSize + 1),
           EncodingSizeInBytes(dexPcMax),
           EncodingSizeInBytes(nativePcMax),
           EncodingSizeInBytes(registerMaskMax))
  }

  /** The record size is determined by the maxima: any choice of least
      widths holding every field's values sums to it. */
  lemma ComputeStackMapSizeDetermined(stackMaskSize: nat, inlineInfoSize: nat, dexRegisterMapSize: nat,
                                   dexPcMax: nat, nativePcMax: nat, registerMaskMax: nat, w: Widths)
    requires inlineInfoSize != 0 ==> inlineInfoSize + dexRegisterMapSize + 1 < 0x1_0000_0000
    requires dexRegisterMapSize + 1 < 0x1_0000_0000
    requires dexPcMax < 0x1_0000_0000 && nativePcMax < 0x1_0000_0000 && registerMaskMax < 0x1_0000_0000
    requires IsChosen(w, inlineInfoSize, dexRegisterMapSize, dexPcMax, nativePcMax, registerMaskMax)
    ensures ComputeStackMapSize(stackMaskSize, inlineInfoSize, dexRegisterMapSize,
                                dexPcMax, nativePcMax, registerMaskMax) == stackMaskSize + w.Sum()
  {
    var c := ChosenWidths(inlineInfoSize, dexRegisterMapSize, dexPcMax, nativePcMax, registerMaskMax);
    if inlineInfoSize != 0 {
      LeastWidthUnique(w.inlineInfo, c.inlineInfo, inlineInfoSize + dexRegisterMapSize + 1);
    }
    LeastWidthUnique(w.dexRegisterMap, c.dexRegisterMap, dexRegisterMapSize + 1);
    LeastWidthUnique(w.dexPc, c.dexPc, dexPcMax);
    LeastWidthUnique(w.nativePc, c.nativePc, nativePcMax);
    LeastWidthUnique(w.registerMask, c.registerMask, registerMaskMax);
  }

  /** Widths with room for every field's largest value (and, for the two
      offsets, for the sentinel above it). */
  ghost predicate HoldsMaxima(w: Widths, inlineInfoSize: nat, dexRegisterMapSize: nat,
                              dexPcMax: nat, nativePcMax: nat, registerMaskMax: nat)
  {
    (inlineInfoSize != 0 ==> inlineInfoSize + dexRegisterMapSize + 1 < Pow256(w.inlineInfo)) &&
    dexRegisterMapSize + 1 < Pow256(w.dexRegisterMap) &&
    dexPcMax < Pow256(w.dexPc) &&
    nativePcMax < Pow256(w.nativePc) &&
    registerMaskMax < Pow256(w.registerMask)
  }

  /** The computed size is the least: every choice of widths with room for
      the maxima needs a record at least that large. */
  lemma ComputeStackMapSizeIsLeast(stackMaskSize: nat, inlineInfoSize: nat, dexRegisterMapSize: nat,
                                   dexPcMax: nat, nativePcMax: nat, registerMaskMax: nat, w: Widths)
    requires inlineInfoSize != 0 ==> inlineInfoSize + dexRegisterMapSize + 1 < 0x1_0000_0000
    requires dexRegisterMapSize + 1 < 0x1_0000_0000
    requires dexPcMax < 0x1_0000_0000 && nativePcMax < 0x1_0000_0000 && registerMaskMax < 0x1_0000_0000
    requires HoldsMaxima(w, inlineInfoSize, dexRegisterMapSize, dexPcMax, nativePcMax, registerMaskMax)
    ensures ComputeStackMapSize(stackMaskSize, inlineInfoSize, dexRegisterMapSize,
                                dexPcMax, nativePcMax, registerMaskMax) <= stackMaskSize + w.Sum()
  {
    var c := ChosenWidths(inlineInfoSize, dexRegisterMapSize, dexPcMax, nativePcMax, registerMaskMax);
    if inlineInfoSize != 0 {
      LeastWidthIsLeast(c.inlineInfo, w.inlineInfo, inlineInfoSize + dexRegisterMapSize + 1);
    }
    LeastWidthIsLeast(c.dexRegisterMap, w.dexRegisterMap, dexRegisterMapSize + 1);
    LeastWidthIsLeast(c.dexPc, w.dexPc, dexPcMax);
    LeastWidthIsLeast(c.nativePc, w.nativePc, nativePcMax);
    LeastWidthIsLeast(c.registerMask, w.registerMask, registerMaskMax);
  }

  /** A record of the computed size holds the canonical layout of the chosen
      widths: every field at most 4 bytes, inside the record, and no two
      fields sharing a byte. */
  lemma CanonicalLayoutFits(stackMaskSize: nat, inlineInfoSize: nat, dexRegisterMapSize: nat,
                            dexPcMax: nat, nativePcMax: nat, registerMaskMax: nat)
    requires inlineInfoSize != 0 ==> inlineInfoSize + dexRegisterMapSize + 1 < 0x1_0000_0000
    requires dexRegisterMapSize + 1 < 0x1_0000_0000
    requires dexPcMax < 0x1_0000_0000 && nativePcMax < 0x1_0000_0000 && registerMaskMax < 0x1_0000_0000
    ensures var w := ChosenWidths(inlineInfoSize, dexRegisterMapSize, dexPcMax, nativePcMax, registerMaskMax);
      CanonicalLayout(inlineInfoSize != 0, stackMaskSize, w.inlineInfo, w.dexRegisterMap, w.dexPc,
                      w.nativePc, w.registerMask)
        .Fits(ComputeStackMapSize(stackMaskSize, inlineInfoSize, dexRegisterMapSize,
                                  dexPcMax, nativePcMax, registerMaskMax))
  {
    var w := ChosenWidths(inlineInfoSize, dexRegisterMapSize, dexPcMax, nativePcMax, registerMaskMax);
    assert w.inlineInfo <= 4 && w.dexRegisterMap <= 4 && w.dexPc <= 4 && w.nativePc <= 4 && w.registerMask <= 4;
  }

  /** A range that ends before another starts shares no byte with it. */
  lemma Precedes(a: Slot, b: Slot)
    requires a.End() <= b.offset
    ensures a.DisjointFrom(b)
  {
  }

  /** The "+ 1" reserves the all-ones pattern: any offset below the size the
      field was sized for is stored and read back as itself, never as the
      sentinel. */
  lemma SentinelReserved(s: seq<uint8>, fieldOffset: nat, maxElement: nat, value: uint32)
    requires value as int < maxElement < 0x1_0000_0000
    requires fieldOffset + EncodingSizeInBytes(maxElement) <= |s|
    ensures var width := EncodingSizeInBytes(maxElement);
      LoadAt(StoredField(s, width, fieldOffset, value), width, fieldOffset, true) == value
  {
    var width := EncodingSizeInBytes(maxElement);
    LoadCheckedAfterStore(s, width, fieldOffset, value);
  }

  /** A sentinel-checked field reads back what was stored: the value itself
      below the all-ones pattern, and the sentinel for the all-ones pattern or
      for NoValue. */
  lemma CheckedFieldStored(s: seq<uint8>, field: Slot, value: uint32)
    requires field.width <= 4 && field.End() <= |s|
    ensures field.width != 0 && value as int <= AllOnes(field.width)
        ==> LoadAt(StoredField(s, field.width, field.offset, value), field.width, field.offset, true)
            == if value as int == AllOnes(field.width) then NoValue else value
    ensures field.width != 0 && value == NoValue
        ==> LoadAt(StoredField(s, field.width, field.offset, value), field.width, field.offset, true)
            == NoValue
  {
    if field.width != 0 {
      if value as int <= AllOnes(field.width) {
        LoadCheckedAfterStore(s, field.width, field.offset, value);
      }
      if value == NoValue {
        StoreNoValue(s, field.width, field.offset);
      }
    }
  }

  /** Storing NoValue into a field of any width writes its all-ones pattern,
      which a checked load reports as NoValue: this is how the absent
      offsets are written. */
  lemma StoreNoValue(s: seq<uint8>, width: nat, offset: nat)
    requires 1 <= width <= 4 && offset + width <= |s|
    ensures LoadAt(StoredField(s, width, offset, NoValue), width, offset, true) == NoValue
  {
    assert Pow256(1) == 0x100 && Pow256(2) == 0x1_0000;
    assert Pow256(3) == 0x100_0000 && Pow256(4) == 0x1_0000_0000;
    assert Truncated(NoValue, width) == AllOnes(width);
    LoadAfterStore(s, width, offset, NoValue);
  }

  /** Storing into a field leaves every load of a field that shares no byte
      with it unchanged, with or without the sentinel check. */
  lemma FieldKept(before: seq<uint8>, field: Slot, value: uint32, other: Slot)
    requires field.width <= 4 && field.End() <= |before|
    requires other.width <= 4 && other.End() <= |before|
    requires field.DisjointFrom(other) || other.DisjointFrom(field)
    ensures LoadAt(StoredField(before, field.width, field.offset, value), other.width, other.offset, false)
         == LoadAt(before, other.width, other.offset, false)
    ensures other.width != 0
        ==> LoadAt(StoredField(before, field.width, field.offset, value), other.width, other.offset, true)
            == LoadAt(before, other.width, other.offset, true)
  {
    var after := StoredField(before, field.width, field.offset, value);
    forall i | other.offset <= i < other.End() ensures after[i] == before[i] {
      assert other.Covers(i) && !field.Covers(i);
    }
    LoadUnalignedFrame(before, after, other.offset, other.width);
  }

  /** Storing into a field leaves the bytes of a range it shares no byte with,
      such as the stack mask, unchanged. */
  lemma MaskKept(before: seq<uint8>, field: Slot, value: uint32, mask: Slot)
    requires field.width <= 4 && field.End() <= |before| && mask.End() <= |before|
    requires mask.DisjointFrom(field)
    ensures StoredField(before, field.width, field.offset, value)[mask.offset..mask.End()]
         == before[mask.offset..mask.End()]
  {
    var after := StoredField(before, field.width, field.offset, value);
    forall i | mask.offset <= i < mask.End() ensures after[i] == before[i] {
      assert mask.Covers(i) && !field.Covers(i);
    }
  }
}
