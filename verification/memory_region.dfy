/** MemoryRegion (runtime/memory_region.h, which is not part of this model):
    a window of `size` bytes starting at `start` of a shared byte buffer.
    Copying a MemoryRegion copies the window, not the bytes, so every copy
    writes through to the same buffer. Unaligned multi-byte loads and stores
    compose bytes little-endian, lowest address first. */
module Memory {

  newtype uint8 = x: int | 0 <= x < 0x100
  newtype uint16 = x: int | 0 <= x < 0x1_0000
  newtype uint32 = x: int | 0 <= x < 0x1_0000_0000

  datatype MemoryRegion = MemoryRegion(buf: array<uint8>, start: nat, size: nat)
  {
    ghost predicate Valid() {
      start + size <= buf.Length
    }

    /** The bytes the window shows. */
    function Bytes(): (b: seq<uint8>)
      reads buf
      requires Valid()
      ensures |b| == size
    {
      buf[start..start + size]
    }

    /** MemoryRegion::Subregion: the `size` bytes at `offset` of this window,
        as a window of the same buffer. */
    function Subregion(offset: nat, size: nat): (r: MemoryRegion)
      reads buf
      requires Valid() && offset + size <= this.size
      ensures r.Valid() && r.buf == buf
      ensures r.start == start + offset && r.size == size
      ensures r.Bytes() == Bytes()[offset..offset + size]
    {
      MemoryRegion(buf, start + offset, size)
    }
  }

  /** 256^n: the number of distinct values n bytes can hold. */
  function Pow256(n: nat): (p: nat)
    ensures p >= 1
  {
    if n == 0 then 1 else 256 * Pow256(n - 1)
  }

  /** The unsigned value of the n bytes at `offset`, lowest address least significant. */
  function LoadUnaligned(s: seq<uint8>, offset: nat, n: nat): (v: nat)
    requires offset + n <= |s|
    ensures v < Pow256(n)
    decreases n
  {
    if n == 0 then 0 else s[offset] as nat + 256 * LoadUnaligned(s, offset + 1, n - 1)
  }

  /** The n-byte little-endian encoding of `v`. */
  function LittleEndianBytes(v: nat, n: nat): (b: seq<uint8>)
    requires v < Pow256(n)
    ensures |b| == n
  {
    if n == 0 then [] else [(v % 256) as uint8] + LittleEndianBytes(v / 256, n - 1)
  }

  /** `s` with the bytes starting at `offset` replaced by `b`. */
  function Overwrite(s: seq<uint8>, offset: nat, b: seq<uint8>): (r: seq<uint8>)
    requires offset + |b| <= |s|
    ensures |r| == |s|
    ensures forall i :: 0 <= i < |s| && !(offset <= i < offset + |b|) ==> r[i] == s[i]
    ensures forall i :: 0 <= i < |b| ==> r[offset + i] == b[i]
  {
    s[..offset] + b + s[offset + |b|..]
  }

  /** MemoryRegion::StoreUnaligned<T> for sizeof(T) == n: writes the n-byte
      little-endian encoding of `v` at `offset` of the window. The caller
      has already converted `v` to T, so it fits n bytes. */
  method StoreUnaligned(region: MemoryRegion, offset: nat, n: nat, v: nat)
    requires region.Valid()
    requires v < Pow256(n)
    requires offset + n <= region.size
    modifies region.buf
    ensures region.Bytes() == Overwrite(old(region.Bytes()), offset, LittleEndianBytes(v, n))
    ensures forall i :: 0 <= i < region.buf.Length && !(region.start <= i < region.start + region.size)
                    ==> region.buf[i] == old(region.buf[i])
  {
    ghost var before := region.Bytes();
    var b := LittleEndianBytes(v, n);
    forall i | 0 <= i < n {
      region.buf[region.start + offset + i] := b[i];
    }
    forall j | 0 <= j < region.size ensures region.Bytes()[j] == Overwrite(before, offset, b)[j] {
      if offset <= j < offset + n {
        assert region.buf[region.start + offset + (j - offset)] == b[j - offset];
      }
    }
  }

  /** A little-endian load reads back the value whose encoding sits at `offset`. */
  lemma {:induction false} LoadLittleEndianBytes(s: seq<uint8>, offset: nat, n: nat, v: nat)
    requires v < Pow256(n)
    requires offset + n <= |s|
    requires forall i :: 0 <= i < n ==> s[offset + i] == LittleEndianBytes(v, n)[i]
    ensures LoadUnaligned(s, offset, n) == v
    decreases n
  {
    if n > 0 {
      var b := LittleEndianBytes(v, n);
      assert b == [(v % 256) as uint8] + LittleEndianBytes(v / 256, n - 1);
      assert s[offset] == b[0];
      var tail := LittleEndianBytes(v / 256, n - 1);
      forall i | 0 <= i < n - 1
        ensures s[offset + 1 + i] == tail[i]
      {
        assert s[offset + (1 + i)] == b[1 + i];
      }
      LoadLittleEndianBytes(s, offset + 1, n - 1, v / 256);
    }
  }

  /** Conversely, encoding the loaded value gives back the bytes it was loaded from. */
  lemma {:induction false} LittleEndianBytesOfLoad(s: seq<uint8>, offset: nat, n: nat)
    requires offset + n <= |s|
    ensures LittleEndianBytes(LoadUnaligned(s, offset, n), n) == s[offset..offset + n]
    decreases n
  {
    if n > 0 {
      var v := LoadUnaligned(s, offset, n);
      var rest := LoadUnaligned(s, offset + 1, n - 1);
      assert v % 256 == s[offset] as nat && v / 256 == rest;
      LittleEndianBytesOfLoad(s, offset + 1, n - 1);
      assert s[offset..offset + n] == [s[offset]] + s[offset + 1..offset + n];
    }
  }

  /** An n-byte load depends only on the n bytes it covers. */
  lemma {:induction false} LoadUnalignedFrame(s: seq<uint8>, t: seq<uint8>, offset: nat, n: nat)
    requires offset + n <= |s| && offset + n <= |t|
    requires forall i :: offset <= i < offset + n ==> s[i] == t[i]
    ensures LoadUnaligned(s, offset, n) == LoadUnaligned(t, offset, n)
    decreases n
  {
    if n > 0 {
      LoadUnalignedFrame(s, t, offset + 1, n - 1);
    }
  }

  /** A 3-byte load is the 2-byte load at `offset` plus the byte after it
      shifted up by 16 bits. */
  lemma LoadUnaligned3Split(s: seq<uint8>, offset: nat)
    requires offset + 3 <= |s|
    ensures LoadUnaligned(s, offset, 3)
         == LoadUnaligned(s, offset, 2) + 0x1_0000 * LoadUnaligned(s, offset + 2, 1)
  {
  }

  /** The 3-byte encoding of a value is the 2-byte encoding of its low 16 bits
      followed by the 1-byte encoding of the byte above them. */
  lemma LittleEndianBytes3Concat(lo: nat, hi: nat)
    requires lo < 0x1_0000 && hi < 0x100
    ensures lo + 0x1_0000 * hi < Pow256(3)
    ensures LittleEndianBytes(lo + 0x1_0000 * hi, 3) == LittleEndianBytes(lo, 2) + LittleEndianBytes(hi, 1)
  {
    var b := LittleEndianBytes(lo, 2) + LittleEndianBytes(hi, 1);
    assert LoadUnaligned(b, 0, 3) == lo + 0x1_0000 * hi by {
      LoadLittleEndianBytes(b, 0, 2, lo);
      assert b[2] == LittleEndianBytes(hi, 1)[0];
      LoadLittleEndianBytes(b, 2, 1, hi);
      LoadUnaligned3Split(b, 0);
    }
    LittleEndianBytesOfLoad(b, 0, 3);
    assert b[0..3] == b;
  }
}
