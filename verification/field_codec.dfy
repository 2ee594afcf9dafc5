/** The variable-width field codec of runtime/stack_map.cc: an unsigned 32-bit
    value stored in 0, 1, 2, 3 or 4 bytes at a byte offset of a region. */
module FieldCodec {
  import opened Memory

  /** What `return -1` yields as a uint32_t: the canonical "absent" value. */
  const NoValue: uint32 := 0xFFFF_FFFF

  /** The all-ones pattern of a field `width` bytes wide. */
  function AllOnes(width: nat): (m: nat)
    ensures m + 1 == Pow256(width)
  {
    Pow256(width) - 1
  }

  /** `value` cut to its low `width` bytes, as a conversion to a narrower
      unsigned type does. */
  function Truncated(value: uint32, width: nat): (t: nat)
    requires width <= 4
    ensures t < Pow256(width)
    ensures value as int < Pow256(width) ==> t == value as int
  {
    assert Pow256(1) == 0x100 && Pow256(2) == 0x1_0000;
    assert Pow256(3) == 0x100_0000 && Pow256(4) == 0x1_0000_0000;
    if width == 0 then 0
    else if width == 1 then value as int % 0x100
    else if width == 2 then value as int % 0x1_0000
    else if width == 3 then value as int % 0x100_0000
    else value as int
  }

  /** Truncation keeps exactly the remainder modulo the field's range. */
  lemma TruncatedIsRemainder(value: uint32, width: nat)
    requires width <= 4
    ensures Truncated(value, width) == value as int % Pow256(width)
  {
    assert Pow256(1) == 0x100 && Pow256(2) == 0x1_0000;
    assert Pow256(3) == 0x100_0000 && Pow256(4) == 0x1_0000_0000;
  }

  function Low16Bits(value: uint32): (lo: uint16)
    ensures lo as int == value as int % 0x1_0000
  {
    (value as int % 0x1_0000) as uint16
  }

  /** The upper half: together with the lower half it gives back the value,
      and it fits one byte whenever the value fits three. */
  function High16Bits(value: uint32): (hi: uint16)
    ensures Low16Bits(value) as int + 0x1_0000 * hi as int == value as int
    ensures value as int < 0x100_0000 ==> hi < 0x100
  {
    (value as int / 0x1_0000) as uint16
  }

  /** LoadAt: decodes the `width`-byte field at `offset`. With `checkMax`, the
      field's all-ones pattern decodes to NoValue; at width 4 that pattern is
      NoValue already, so the flag changes nothing there. */
  function LoadAt(region: seq<uint8>, width: nat, offset: nat, checkMax: bool): (r: uint32)
    requires width <= 4
    requires width == 0 ==> !checkMax
    requires offset + width <= |region|
    ensures width == 0 ==> r == 0
    ensures !checkMax ==> r as int == LoadUnaligned(region, offset, width)
    ensures checkMax ==> (r == NoValue <==> LoadUnaligned(region, offset, width) == AllOnes(width))
    ensures checkMax && r != NoValue ==> r as int == LoadUnaligned(region, offset, width)
  {
    assert Pow256(1) == 0x100 && Pow256(2) == 0x1_0000;
    assert Pow256(3) == 0x100_0000 && Pow256(4) == 0x1_0000_0000;
    if width == 0 then
      0
    else if width == 1 then
      var value := LoadUnaligned(region, offset, 1);
      if checkMax && value == 0xFF then NoValue else value as uint32
    else if width == 2 then
      var value := LoadUnaligned(region, offset, 2);
      if checkMax && value == 0xFFFF then NoValue else value as uint32
    else if width == 3 then
      var low := LoadUnaligned(region, offset, 2);
      var high := LoadUnaligned(region, offset + 2, 1);
      LoadUnaligned3Split(region, offset);
      var value := high * 0x1_0000 + low;
      if checkMax && value == 0xFF_FFFF then NoValue else value as uint32
    else
      LoadUnaligned(region, offset, 4) as uint32
  }

  /** The region after storing `value` into the `width`-byte field at `offset`:
      the field holds the little-endian encoding of `value` cut to `width`
      bytes and no other byte changes. */
  function StoredField(region: seq<uint8>, width: nat, offset: nat, value: uint32): (r: seq<uint8>)
    requires width <= 4
    requires offset + width <= |region|
    ensures |r| == |region|
    ensures forall i :: 0 <= i < |region| && !(offset <= i < offset + width) ==> r[i] == region[i]
    ensures width == 0 ==> r == region
  {
    Overwrite(region, offset, LittleEndianBytes(Truncated(value, width), width))
  }

  /** StoreAt: encodes `value` into the `width`-byte field at `offset`. Storing
      into a width-0 field writes nothing and demands a zero value; otherwise
      the value is cut to the field's width, as the source's conversions to
      uint8_t and uint16_t do. */
  method StoreAt(region: MemoryRegion, width: nat, offset: nat, value: uint32)
    requires region.Valid()
    requires width <= 4
    requires width == 0 ==> value == 0
    requires offset + width <= region.size
    modifies region.buf
    ensures region.Bytes() == StoredField(old(region.Bytes()), width, offset, value)
    ensures forall i :: 0 <= i < region.buf.Length && !(region.start <= i < region.start + region.size)
                    ==> region.buf[i] == old(region.buf[i])
  {
    ghost var before := region.Bytes();
    if width == 0 {
      assert before == Overwrite(before, offset, []);
    } else if width == 1 {
      StoreUnaligned(region, offset, 1, Truncated(value, 1));
      assert region.Bytes() == StoredField(before, 1, offset, value);
    } else if width == 2 {
      StoreUnaligned(region, offset, 2, Truncated(value, 2));
      assert region.Bytes() == StoredField(before, 2, offset, value);
    } else if width == 3 {
      StoreUnaligned(region, offset, 2, Low16Bits(value) as int);
      ghost var low := region.Bytes();
      StoreUnaligned(region, offset + 2, 1, High16Bits(value) as int % 0x100);
      assert region.Bytes() == StoredField(before, 3, offset, value) by {
        assert low == Overwrite(before, offset, LittleEndianBytes(Low16Bits(value) as int, 2));
        Width3Halves(before, offset, value);
      }
    } else {
      StoreUnaligned(region, offset, 4, value as int);
      assert region.Bytes() == StoredField(before, 4, offset, value);
    }
  }

  /** Storing a width-3 field is storing its low 16 bits at `offset` and then
      bits 16 to 23 at `offset + 2`. */
  lemma Width3Halves(region: seq<uint8>, offset: nat, value: uint32)
    requires offset + 3 <= |region|
    ensures StoredField(region, 3, offset, value)
         == Overwrite(Overwrite(region, offset, LittleEndianBytes(Low16Bits(value) as int, 2)),
                      offset + 2, LittleEndianBytes(High16Bits(value) as int % 0x100, 1))
  {
    var lo := Low16Bits(value) as int;
    var hi := High16Bits(value) as int % 0x100;
    var low, high := LittleEndianBytes(lo, 2), LittleEndianBytes(hi, 1);
    assert LittleEndianBytes(Truncated(value, 3), 3) == low + high by {
      assert Truncated(value, 3) == lo + 0x1_0000 * hi;
      LittleEndianBytes3Concat(lo, hi);
    }
    OverwriteTwice(region, offset, low, high);
  }

  /** Writing two adjacent pieces is writing their concatenation. */
  lemma OverwriteTwice(s: seq<uint8>, offset: nat, a: seq<uint8>, b: seq<uint8>)
    requires offset + |a| + |b| <= |s|
    ensures Overwrite(Overwrite(s, offset, a), offset + |a|, b) == Overwrite(s, offset, a + b)
  {
    var l := Overwrite(Overwrite(s, offset, a), offset + |a|, b);
    var r := Overwrite(s, offset, a + b);
    forall i | 0 <= i < |s| ensures l[i] == r[i] {
      if offset <= i < offset + |a| {
        assert r[offset + (i - offset)] == (a + b)[i - offset];
      } else if offset + |a| <= i < offset + |a| + |b| {
        assert r[offset + (i - offset)] == (a + b)[i - offset];
      }
    }
  }

  /** Round trip: loading a field right after storing `value` gives `value`
      cut to the field's width, so exactly `value` whenever it fits. */
  lemma LoadAfterStore(region: seq<uint8>, width: nat, offset: nat, value: uint32)
    requires width <= 4
    requires offset + width <= |region|
    ensures LoadAt(StoredField(region, width, offset, value), width, offset, false) as int
         == Truncated(value, width)
    ensures value as int < Pow256(width)
         ==> LoadAt(StoredField(region, width, offset, value), width, offset, false) == value
  {
    var v := Truncated(value, width);
    var t := StoredField(region, width, offset, value);
    LoadLittleEndianBytes(t, offset, width, v);
  }

  /** Sentinel round trip: with `checkMax`, a stored all-ones pattern comes back
      as NoValue and every smaller value comes back unchanged. */
  lemma LoadCheckedAfterStore(region: seq<uint8>, width: nat, offset: nat, value: uint32)
    requires 1 <= width <= 4
    requires offset + width <= |region|
    requires value as int <= AllOnes(width)
    ensures LoadAt(StoredField(region, width, offset, value), width, offset, true)
         == if value as int == AllOnes(width) then NoValue else value
  {
    var t := StoredField(region, width, offset, value);
    LoadLittleEndianBytes(t, offset, width, value as int);
  }

  /** The converse round trip: storing what a load returned leaves the region as it was. */
  lemma StoreAfterLoad(region: seq<uint8>, width: nat, offset: nat)
    requires width <= 4
    requires offset + width <= |region|
    ensures StoredField(region, width, offset, LoadAt(region, width, offset, false)) == region
  {
    var v := LoadAt(region, width, offset, false);
    LittleEndianBytesOfLoad(region, offset, width);
    var t := StoredField(region, width, offset, v);
    forall i | offset <= i < offset + width ensures t[i] == region[i] {
      assert t[offset + (i - offset)] == region[offset..offset + width][i - offset];
    }
  }

  /** A width-3 field is a 16-bit low half at `offset` and one byte at
      `offset + 2` holding bits 16 to 23 of the value. */
  lemma Width3Layout(region: seq<uint8>, offset: nat, value: uint32)
    requires offset + 3 <= |region|
    ensures LoadUnaligned(StoredField(region, 3, offset, value), offset, 2) == Low16Bits(value) as int
    ensures LoadUnaligned(StoredField(region, 3, offset, value), offset + 2, 1)
         == High16Bits(value) as int % 0x100
  {
    var lo := Low16Bits(value) as int;
    var hi := High16Bits(value) as int % 0x100;
    var low, high := LittleEndianBytes(lo, 2), LittleEndianBytes(hi, 1);
    var t := StoredField(region, 3, offset, value);
    Width3Halves(region, offset, value);
    var mid := Overwrite(region, offset, low);
    assert t == Overwrite(mid, offset + 2, high);
    forall i | 0 <= i < 2 ensures t[offset + i] == low[i] {
      assert mid[offset + i] == low[i];
    }
    LoadLittleEndianBytes(t, offset, 2, lo);
    assert t[offset + 2 + 0] == high[0];
    LoadLittleEndianBytes(t, offset + 2, 1, hi);
  }
}
