# Stack-map record codec (ART `runtime/stack_map.cc`)

ART describes each compiled method's safepoints with a stack-map table. The
table has one fixed-size record per safepoint. Every field of a record sits
at a byte offset and has a byte width. The table header (`CodeInfo`) chooses
each width once for the whole table; it is 0, 1, 2, 3 or 4 bytes, the least
that holds the field's largest value. This project models the part of
`runtime/stack_map.cc` that reads and writes those records.

* `LoadAt` and `StoreAt` form the variable-width field codec.
  * A 3-byte field is split into a 16-bit low half and a high byte.
  * A "check max" load turns the field's all-ones pattern into the 32-bit
    "absent" value `0xFFFFFFFF`. That value is `kNoDexRegisterMap` /
    `kNoInlineInfo`.
* The `StackMap` getters and setters read and write each record field
  through that codec. The field widths and offsets come from the header.
* `GetStackMask` returns the stack mask as a window onto the same bytes.
* `ComputeStackMapSize` and `ComputeStackMapSizeInternal` compute the record
  size from table-wide maxima. They keep a "+ 1" of room for the absent
  values.

The model has four modules, one file each:

* `memory_region.dfy` (`Memory`) holds the byte types and `MemoryRegion`.
  * A `MemoryRegion` is a window (`start`, `size`) onto a shared
    `array<uint8>`.
  * Unaligned loads and stores compose bytes little-endian.
  * A store writes through to the shared buffer. Its contract states the
    window's new bytes and that nothing outside the window changes.
* `field_codec.dfy` (`FieldCodec`) holds `LoadAt` and `StoreAt`.
  * `LoadAt` is a function of the window's bytes.
  * `StoreAt` is a method that writes the buffer.
  * `StoreAt` is specified by `StoredField`, a function giving the window's
    new contents. The round-trip and width-3 lemmas are proved about
    `StoredField`.
* `code_info.dfy` (`CodeInfoHeader`) holds the header data the accessors
  consult and `EncodingSizeInBytes`.
  * Each field is a `Slot` (offset and width).
  * `CodeInfo.Fits(size)` states what the accessors rely on. Every coded
    field is at most 4 bytes wide and lies inside the record, and no two
    fields share a byte.
* `stack_map.dfy` (`StackMaps`) holds `StackMap` and the size computation.
  * `StackMap` is a value wrapping a `MemoryRegion`, as in the source.
  * Its getters are functions of the buffer. Its setters are methods that
    modify the buffer.

Each setter states the following:

* the record's new bytes;
* that the buffer outside the record is unchanged;
* that the matching getter then returns the stored value (or the absent
  value, for the two sentinel fields);
* that every other getter and the stack mask's bytes are unchanged.

## Model

| member | source | states |
|---|---|---|
| Memory.MemoryRegion.Subregion | runtime/stack_map.cc:199-201 | the sub-window shares the buffer, starts `offset` bytes in, and shows exactly those `size` bytes of the window |
| Memory.StoreUnaligned | runtime/stack_map.cc:95-102 | an n-byte unaligned store writes the little-endian bytes of the value at the offset, leaves every other byte of the window as it was and touches nothing outside the window |
| Memory.LoadUnaligned | runtime/stack_map.cc:63-87 | an unaligned load of n bytes composes them little-endian, lowest address least significant, into a value below 256^n |
| Memory.LoadLittleEndianBytes | runtime/stack_map.cc:55-88 | an unaligned load of n bytes holding a value's little-endian encoding returns that value |
| Memory.LittleEndianBytesOfLoad | runtime/stack_map.cc:55-105 | encoding the value an n-byte load returned gives back exactly the loaded bytes |
| Memory.LoadUnalignedFrame | runtime/stack_map.cc:55-88 | an n-byte load depends only on the n bytes it covers |
| Memory.LoadUnaligned3Split | runtime/stack_map.cc:76-78 | a 3-byte little-endian value is the 16-bit load at the offset plus the byte at offset + 2 shifted left by 16 |
| Memory.LittleEndianBytes3Concat | runtime/stack_map.cc:99-100 | the 3-byte encoding of `low + (high << 16)` is the 2-byte encoding of `low` followed by the 1-byte encoding of `high` |
| FieldCodec.Truncated | runtime/stack_map.cc:95-100 | the value cut to `width` bytes is below 256^width and equals the value whenever the value fits |
| FieldCodec.TruncatedIsRemainder | runtime/stack_map.cc:95-100 | the conversion to a narrower unsigned type keeps the remainder modulo 256^width |
| FieldCodec.High16Bits | runtime/stack_map.cc:99-100 | the low half plus the high half shifted left by 16 gives back the value, and the high half fits one byte whenever the value fits three bytes |
| FieldCodec.LoadAt | runtime/stack_map.cc:55-88 | a width-0 field reads as 0 and cannot be read with check max; without check max the result is the little-endian value of the field's bytes; with check max it is `0xFFFFFFFF` exactly when the bytes hold the width's all-ones pattern, and the bytes' value otherwise |
| FieldCodec.StoredField | runtime/stack_map.cc:90-105 | storing changes no byte outside `[offset, offset + width)`, and a width-0 store changes nothing |
| FieldCodec.StoreAt | runtime/stack_map.cc:90-105 | the window afterwards is `StoredField` of the window before; a width-0 store demands a zero value; no byte outside the window changes |
| FieldCodec.Width3Halves | runtime/stack_map.cc:98-100 | storing a 3-byte field is the same as storing its low 16 bits at the offset and then its bits 16-23 at offset + 2 |
| FieldCodec.Width3Layout | runtime/stack_map.cc:98-100 | after a 3-byte store, the 16-bit load at the offset gives `Low16Bits(value)` and the byte at offset + 2 gives `High16Bits(value)` cut to 8 bits |
| FieldCodec.LoadAfterStore | runtime/stack_map.cc:55-105 | round trip: loading after storing gives the value cut to the width, so exactly the value when it fits |
| FieldCodec.LoadCheckedAfterStore | runtime/stack_map.cc:64-84 | with check max, a stored all-ones pattern reads back as `0xFFFFFFFF` and every smaller value reads back as itself |
| FieldCodec.StoreAfterLoad | runtime/stack_map.cc:55-105 | storing what a plain load returned leaves the bytes unchanged |
| CodeInfoHeader.EncodingSizeInBytes | runtime/stack_map.cc:191-196 | the width chosen for a maximum is the least of 0..4 whose range holds it, and it is 0 exactly for a maximum of 0 |
| CodeInfoHeader.LeastWidthUnique | runtime/stack_map.cc:186-196 | a value has only one least width |
| CodeInfoHeader.EncodingSizeCoversUpToMax | runtime/stack_map.cc:180-197 | every value up to the maximum fits the chosen width, and a smaller maximum never picks a wider one |
| CodeInfoHeader.EncodingSizeInBytesSamples | runtime/stack_map.cc:186-196 | the chosen widths at the boundaries 0, 255/256, 65535/65536 and 16777215/16777216 |
| StackMaps.StackMap.GetDexPc | runtime/stack_map.cc:107-109 | the dex pc is the unchecked little-endian value of its field |
| StackMaps.StackMap.SetDexPc | runtime/stack_map.cc:111-113 | stores the dex pc into its field only; a fitting value reads back; the other getters and the stack mask are unchanged |
| StackMaps.StackMap.GetNativePcOffset | runtime/stack_map.cc:115-117 | the native pc offset is the unchecked little-endian value of its field |
| StackMaps.StackMap.SetNativePcOffset | runtime/stack_map.cc:119-121 | stores the native pc offset into its field only; a fitting value reads back; the other getters and the stack mask are unchanged |
| StackMaps.StackMap.GetDexRegisterMapOffset | runtime/stack_map.cc:123-128 | the result is `kNoDexRegisterMap` exactly when the field holds its all-ones pattern, and the field's value otherwise |
| StackMaps.StackMap.SetDexRegisterMapOffset | runtime/stack_map.cc:130-135 | stores the offset into its field only; a value below the all-ones pattern reads back as itself; the all-ones pattern and `kNoDexRegisterMap` read back as `kNoDexRegisterMap`; the other getters and the stack mask are unchanged |
| StackMaps.StackMap.GetInlineDescriptorOffset | runtime/stack_map.cc:137-143 | `kNoInlineInfo` whenever the table has no inline info, whatever the bytes; otherwise `kNoInlineInfo` exactly when the field holds its all-ones pattern, and the field's value otherwise |
| StackMaps.StackMap.SetInlineDescriptorOffset | runtime/stack_map.cc:145-151 | only for a table with inline info; stores the offset into its field only; it reads back as with the dex register map offset; the other getters and the stack mask are unchanged |
| StackMaps.StackMap.GetRegisterMask | runtime/stack_map.cc:153-157 | the register mask is the unchecked little-endian value of its field |
| StackMaps.StackMap.SetRegisterMask | runtime/stack_map.cc:159-164 | stores the register mask into its field only; a fitting value reads back; the other getters and the stack mask are unchanged |
| StackMaps.StackMap.GetStackMask | runtime/stack_map.cc:199-201 | the stack mask is a window onto the same buffer at the mask's offset, whose bytes are the record's bytes there |
| StackMaps.ComputeStackMapSizeInternal | runtime/stack_map.cc:166-178 | the size is where the last field ends when the fields are laid out one after another in argument order, and a record of that size holds all of them without overlap whenever each coded width is at most 4 |
| StackMaps.CanonicalLayout | runtime/stack_map.cc:166-178 | laying the fields out one after another in the argument order of the size computation, with any widths of at most 4, gives a header that fits a record of the summed size: every field inside it and no two sharing a byte |
| StackMaps.ComputeStackMapSize | runtime/stack_map.cc:180-197 | the size is the stack mask size plus the chosen widths (no inline-info width without inline info, "+ 1" on both offsets); it lies between stack mask size + 1 and stack mask size + 20 |
| StackMaps.ChosenWidths | runtime/stack_map.cc:180-197 | each width is the least that holds its field's maximum, counting the reserved sentinel for the two offsets |
| StackMaps.ComputeStackMapSizeDetermined | runtime/stack_map.cc:180-197 | any choice of least-covering widths sums to the computed size, so the size is determined by the maxima |
| StackMaps.ComputeStackMapSizeIsLeast | runtime/stack_map.cc:180-197 | the computed size is minimal: any widths with room for every field's maximum (and for the sentinel of the two offsets) sum to at least it |
| CodeInfoHeader.LeastWidthIsLeast | runtime/stack_map.cc:191-196 | the least width is no wider than any width whose range holds the value |
| StackMaps.CanonicalLayoutFits | runtime/stack_map.cc:166-197 | the canonical layout of the chosen widths fits a record of the computed size: every field is at most 4 bytes, lies inside the record and shares no byte with another |
| StackMaps.SentinelReserved | runtime/stack_map.cc:188-193 | thanks to the "+ 1", every offset below the sized-for maximum is stored and read back with check max as itself, never as the absent value |
| StackMaps.CheckedFieldStored | runtime/stack_map.cc:123-151 | a checked field reads back a value below its all-ones pattern as itself, and the all-ones pattern or `0xFFFFFFFF` as `0xFFFFFFFF` |
| StackMaps.StoreNoValue | runtime/stack_map.cc:130-151 | storing `0xFFFFFFFF` into a field of any width 1-4 writes its all-ones pattern, which a checked load reports as absent |
| StackMaps.FieldKept | runtime/stack_map.cc:107-164 | storing into one field leaves the checked and unchecked loads of a field that shares no byte with it unchanged |
| StackMaps.MaskKept | runtime/stack_map.cc:107-164 | storing into a field leaves the bytes of a disjoint range, such as the stack mask, unchanged |

## Left out

- The `Dump` functions and `DumpRegisterMapping` (`runtime/stack_map.cc:203-329`) only format text for a stream.
- `DexRegisterMap::GetLocationInternalKind` and `GetDexRegisterLocation` (`runtime/stack_map.cc:29-51`) delegate to catalog decoding in `stack_map.h`. `stack_map.h` is not part of this model.
- `MemoryRegion` internals come from `runtime/memory_region.h`, which is not part of this model.
  - Its unaligned loads and stores are modelled as little-endian byte composition, as on the targets ART runs on.
  - Its bit accessors are not modelled. The stack mask is the byte window `GetStackMask` returns; the model does not read individual bits.
- The header's own computations (`NumberOfBytesFor*`, `ComputeStackMap*Offset`, `GetStackMaskSize`, `HasInlineInfo`) live in `stack_map.h`. A `CodeInfo` value supplies their results.
  - Every accessor requires `CodeInfo.Fits`.
  - `GetDexRegisterMapOffset` also requires a non-zero dex register map width.
  - `GetInlineDescriptorOffset` also requires a non-zero inline info width when the table has inline info.
  - `SetInlineDescriptorOffset` also requires the table to have inline info.
  - The header's actual field order is not modelled. `CanonicalLayout` lays the fields out in the argument order of `ComputeStackMapSizeInternal`, and the accessors do not depend on it.
  - `EncodingSizeInBytes` is modelled by its meaning: the least width holding the value.
- `HasDexRegisterMap` and `HasInlineInfo` on a stack map are declared in `stack_map.h`. They are not part of this model.
- `DCHECK`s are `requires` clauses:
  - no check-max load of a width-0 field;
  - a zero value for a width-0 store;
  - a width of at most 4;
  - inline info present for `SetInlineDescriptorOffset`;
  - maxima below 2^32 for `EncodingSizeInBytes`, which the header checks.
- FieldCodec.LoadAt: requires the field's offset to lie within the region even at width 0, where the source never looks at the offset. Every field of a header that `Fits` its record satisfies this.
- FieldCodec.StoreAt: requires the field's offset to lie within the region even at width 0, for the same reason.
- StackMaps.StackMap.GetDexRegisterMapOffset: for a table whose dex register map field has width 0, the source fails its check-max `DCHECK` and does not return `kNoDexRegisterMap`. The model follows the check-max `DCHECK` at `runtime/stack_map.cc:60` and requires a non-zero width. Tables sized by `ComputeStackMapSize` always meet this, since the field gets `EncodingSizeInBytes(dex_register_map_size + 1)` bytes (`runtime/stack_map.cc:193`), which is at least 1.
- `size_t` arithmetic in `ComputeStackMapSize{,Internal}` is modelled with unbounded naturals. A sum of at most a stack mask size plus 20 bytes cannot wrap for any real table.
