/** The 64-bit word that stores a tape element (blk_entry.h): segment id, element type, block size and
    compressed size in units of 512 bytes. */
module EntryBits {
  import opened Units

  const SEGMENT_LIMIT := 0x40_0000      // bit 22: type
  const SIZE_AT := 0x80_0000            // bit 23
  const SIZE_LIMIT := 0x100_0000
  const CSIZE_AT := 0x8000_0000_0000    // bit 47
  const CSIZE_LIMIT := 0x8000

  function SegmentId(bits: nat): nat { bits % SEGMENT_LIMIT }

  predicate IsData(bits: nat) { bits / SEGMENT_LIMIT % 2 == 1 }

  function BlockSize(bits: nat): nat { bits / SIZE_AT % SIZE_LIMIT }

  function CompressedUnits(bits: nat): nat { bits / CSIZE_AT % CSIZE_LIMIT }

  /** Units of 512 bytes that hold n bytes. */
  function Units512(n: nat): (u: nat)
    ensures 512 * u - 512 < n <= 512 * u
  {
    n / 512 + if n % 512 != 0 then 1 else 0
  }

  /** The word written for a data block; compressed is 0 for a block that is stored as it is. */
  function PackData(segment: nat, size: nat, compressed: nat): nat {
    segment + SEGMENT_LIMIT + SIZE_AT * size + CSIZE_AT * Units512(compressed)
  }

  /** The word written for a mark. */
  function PackMark(segment: nat, setmark: bool): nat {
    segment + if setmark then CSIZE_AT else 0
  }

  /** entry_disk_size: the bytes that an element takes on disk, as read back. */
  function DiskSize(bits: nat): nat {
    if !IsData(bits) then 0
    else if CompressedUnits(bits) != 0 then 512 * CompressedUnits(bits)
    else BlockSize(bits)
  }

  predicate IsSetmark(bits: nat) { !IsData(bits) && CompressedUnits(bits) != 0 }

  /** The fields of a data block are read back as written; the compressed size exactly when it fits its 15
      bits. */
  lemma {:induction false} DataReadsBack(segment: nat, size: nat, compressed: nat)
    requires segment < SEGMENT_LIMIT && size < SIZE_LIMIT
    ensures SegmentId(PackData(segment, size, compressed)) == segment
    ensures IsData(PackData(segment, size, compressed))
    ensures BlockSize(PackData(segment, size, compressed)) == size
    ensures CompressedUnits(PackData(segment, size, compressed)) == Units512(compressed) <==> compressed <= 512 * 0x7FFF
  {
    var u := Units512(compressed);
    hide Units512, SegmentId, IsData, BlockSize, CompressedUnits, PackData;
    PackedLow(segment, size, compressed);
    PackedSize(segment, size, compressed);
    PackedUnits(segment, size, compressed);
    assert u % CSIZE_LIMIT == u <==> u <= 0x7FFF;
  }

  lemma {:induction false} PackedLow(segment: nat, size: nat, compressed: nat)
    requires segment < SEGMENT_LIMIT
    ensures SegmentId(PackData(segment, size, compressed)) == segment && IsData(PackData(segment, size, compressed))
  {
    var rest := 1 + 2 * (size + SIZE_LIMIT * Units512(compressed));
    assert PackData(segment, size, compressed) == segment + SEGMENT_LIMIT * rest;
    hide Units512, PackData;
    LowField(segment, rest);
    OddField(size + SIZE_LIMIT * Units512(compressed));
  }

  lemma {:induction false} PackedSize(segment: nat, size: nat, compressed: nat)
    requires segment < SEGMENT_LIMIT && size < SIZE_LIMIT
    ensures BlockSize(PackData(segment, size, compressed)) == size
  {
    var rest := size + SIZE_LIMIT * Units512(compressed);
    assert PackData(segment, size, compressed) == segment + SEGMENT_LIMIT + SIZE_AT * rest;
    hide Units512, PackData;
    MiddleField(segment + SEGMENT_LIMIT, rest);
    SizeField(size, Units512(compressed));
  }

  lemma {:induction false} PackedUnits(segment: nat, size: nat, compressed: nat)
    requires segment < SEGMENT_LIMIT && size < SIZE_LIMIT
    ensures CompressedUnits(PackData(segment, size, compressed)) == Units512(compressed) % CSIZE_LIMIT
  {
    var low := segment + SEGMENT_LIMIT + SIZE_AT * size;
    assert PackData(segment, size, compressed) == low + CSIZE_AT * Units512(compressed);
    hide Units512, PackData;
    HighField(low, Units512(compressed));
  }

  lemma {:induction false} LowField(low: nat, rest: nat)
    requires low < SEGMENT_LIMIT
    ensures (low + SEGMENT_LIMIT * rest) % SEGMENT_LIMIT == low && (low + SEGMENT_LIMIT * rest) / SEGMENT_LIMIT == rest
  {
  }

  lemma {:induction false} OddField(rest: nat)
    ensures (1 + 2 * rest) % 2 == 1
  {
  }

  lemma {:induction false} MiddleField(low: nat, rest: nat)
    requires low < SIZE_AT
    ensures (low + SIZE_AT * rest) / SIZE_AT == rest
  {
  }

  lemma {:induction false} SizeField(size: nat, u: nat)
    requires size < SIZE_LIMIT
    ensures (size + SIZE_LIMIT * u) % SIZE_LIMIT == size
  {
  }

  lemma {:induction false} HighField(low: nat, u: nat)
    requires low < CSIZE_AT
    ensures (low + CSIZE_AT * u) / CSIZE_AT == u
  {
  }

  lemma {:induction false} MarkReadsBack(segment: nat, setmark: bool)
    requires segment < SEGMENT_LIMIT
    ensures var bits := PackMark(segment, setmark);
            SegmentId(bits) == segment && !IsData(bits) && (IsSetmark(bits) <==> setmark) && DiskSize(bits) == 0
  {
    if setmark {
      var bits := PackMark(segment, setmark);
      assert bits == segment + SEGMENT_LIMIT * 0x200_0000;
      assert bits / SEGMENT_LIMIT == 0x200_0000;
      assert bits / CSIZE_AT == 1;
    }
  }

  /** bint_blocks: sectors that hold n bytes. */
  function Sectors(shift: nat, n: nat): nat
    requires 9 <= shift <= 12
  {
    Ceiling(SectorSize(shift), n)
  }

  /** Rounding to 512 bytes first does not change the number of sectors. */
  lemma {:induction false} RoundedSectors(shift: nat, n: nat)
    requires 9 <= shift <= 12
    ensures Sectors(shift, 512 * Units512(n)) == Sectors(shift, n)
  {
    var u := Units512(n);
    hide Units512;
    if shift == 9 {
      Rounded512(n, u);
    } else if shift == 10 {
      Rounded1024(n, u);
    } else if shift == 11 {
      Rounded2048(n, u);
    } else {
      Rounded4096(n, u);
    }
  }

  /** Division by s with rounding up. */
  function Ceiling(s: nat, n: nat): nat
    requires s > 0
  {
    n / s + if n % s != 0 then 1 else 0
  }

  lemma {:induction false} Rounded512(n: nat, u: nat)
    requires 512 * u - 512 < n <= 512 * u
    ensures Ceiling(512, 512 * u) == Ceiling(512, n)
  {
  }

  lemma {:induction false} Rounded1024(n: nat, u: nat)
    requires 512 * u - 512 < n <= 512 * u
    ensures Ceiling(1024, 512 * u) == Ceiling(1024, n)
  {
    var v, w := u / 2, u % 2;
    var k := if w == 0 then v else v + 1;
    Split1024(n);
    Split1024(512 * u);
    assert 1024 * k - 1024 < n <= 512 * u <= 1024 * k;
    Ceiling1024(n, n / 1024, n % 1024, k);
    Ceiling1024(512 * u, 512 * u / 1024, 512 * u % 1024, k);
  }

  lemma {:induction false} Split1024(n: nat)
    ensures n == 1024 * (n / 1024) + n % 1024 && 0 <= n % 1024 < 1024
  {
  }

  lemma {:induction false} Ceiling1024(n: nat, q: nat, r: nat, k: nat)
    requires n == 1024 * q + r && r < 1024 && 1024 * k - 1024 < n <= 1024 * k
    ensures k == q + if r != 0 then 1 else 0
  {
  }

  lemma {:induction false} Rounded2048(n: nat, u: nat)
    requires 512 * u - 512 < n <= 512 * u
    ensures Ceiling(2048, 512 * u) == Ceiling(2048, n)
  {
    var v, w := u / 4, u % 4;
    var k := if w == 0 then v else v + 1;
    Split2048(n);
    Split2048(512 * u);
    assert 2048 * k - 2048 < n <= 512 * u <= 2048 * k;
    Ceiling2048(n, n / 2048, n % 2048, k);
    Ceiling2048(512 * u, 512 * u / 2048, 512 * u % 2048, k);
  }

  lemma {:induction false} Split2048(n: nat)
    ensures n == 2048 * (n / 2048) + n % 2048 && 0 <= n % 2048 < 2048
  {
  }

  lemma {:induction false} Ceiling2048(n: nat, q: nat, r: nat, k: nat)
    requires n == 2048 * q + r && r < 2048 && 2048 * k - 2048 < n <= 2048 * k
    ensures k == q + if r != 0 then 1 else 0
  {
  }

  lemma {:induction false} Rounded4096(n: nat, u: nat)
    requires 512 * u - 512 < n <= 512 * u
    ensures Ceiling(4096, 512 * u) == Ceiling(4096, n)
  {
    var v, w := u / 8, u % 8;
    var k := if w == 0 then v else v + 1;
    Split4096(n);
    Split4096(512 * u);
    assert 4096 * k - 4096 < n <= 512 * u <= 4096 * k;
    Ceiling4096(n, n / 4096, n % 4096, k);
    Ceiling4096(512 * u, 512 * u / 4096, 512 * u % 4096, k);
  }

  lemma {:induction false} Split4096(n: nat)
    ensures n == 4096 * (n / 4096) + n % 4096 && 0 <= n % 4096 < 4096
  {
  }

  lemma {:induction false} Ceiling4096(n: nat, q: nat, r: nat, k: nat)
    requires n == 4096 * q + r && r < 4096 && 4096 * k - 4096 < n <= 4096 * k
    ensures k == q + if r != 0 then 1 else 0
  {
  }

  /** The largest block that a drive accepts. */
  const MAX_BLOCK_SIZE := 0x80_0000

  /** A block that a drive accepts, compressed by at least 504 bytes or not at all. */
  predicate Accepted(size: nat, compressed: nat) {
    0 < size <= MAX_BLOCK_SIZE && (compressed == 0 || compressed + 504 <= size)
  }

  /** The bytes written for a block. */
  function Stored(size: nat, compressed: nat): nat {
    if compressed != 0 then compressed else size
  }

  /** Everything about an accepted block is read back: its segment, type and sizes, and so its extent, which
      holds every byte written. */
  lemma {:induction false} AcceptedReadsBack(shift: nat, segment: nat, size: nat, compressed: nat)
    requires 9 <= shift <= 12 && segment < SEGMENT_LIMIT && Accepted(size, compressed)
    ensures var bits := PackData(segment, size, compressed);
            && SegmentId(bits) == segment && IsData(bits) && BlockSize(bits) == size
            && CompressedUnits(bits) == Units512(compressed)
            && Sectors(shift, DiskSize(bits)) == Sectors(shift, Stored(size, compressed)) > 0
            && Stored(size, compressed) <= DiskSize(bits) < Stored(size, compressed) + 512
  {
    DataReadsBack(segment, size, compressed);
    RoundedSectors(shift, compressed);
    SomeSector(shift, Stored(size, compressed));
    hide Sectors, PackData;
    assert compressed > 0 ==> Units512(compressed) > 0;
  }

  lemma {:induction false} SomeSector(shift: nat, n: nat)
    requires 9 <= shift <= 12 && n > 0
    ensures Sectors(shift, n) > 0
  {
    if shift == 9 {
    } else if shift == 10 {
    } else if shift == 11 {
    } else {
    }
  }
}
