/** Units, sectors and bitmap positions of a disk (bdev.h).  A disk is handed out in units of 64 MB; one
    bitmap page covers 32704 of them. */
module Units {

  const UNIT_SIZE := 0x400_0000
  const RESERVED := 4
  const BMAP_ENTRIES := 4096 - 8
  const UNITS_PER_INDEX := BMAP_ENTRIES * 8

  function SectorSize(shift: nat): (n: nat)
    requires 9 <= shift <= 12
    ensures n > 0
  {
    if shift == 9 then 512 else if shift == 10 then 1024 else if shift == 11 then 2048 else 4096
  }

  /** Sectors of one unit. */
  function SectorsPerUnit(shift: nat): (n: nat)
    requires 9 <= shift <= 12
    ensures n > 0 && n * SectorSize(shift) == UNIT_SIZE
  {
    UNIT_SIZE / SectorSize(shift)
  }

  /** bint_nindexes, from the number of units. */
  function Indexes(units: nat): (n: nat)
    ensures units <= n * UNITS_PER_INDEX && (units > 0 ==> (n - 1) * UNITS_PER_INDEX < units)
  {
    units / UNITS_PER_INDEX + if units % UNITS_PER_INDEX != 0 then 1 else 0
  }

  /** calc_bmap_entries: bytes of the bitmap page that stand for units of the disk. */
  function Entries(units: nat, index: nat): (n: nat)
    requires index * UNITS_PER_INDEX <= units
    ensures n <= BMAP_ENTRIES
  {
    var rest := units - index * UNITS_PER_INDEX;
    var here := if rest < UNITS_PER_INDEX then rest else UNITS_PER_INDEX;
    here / 8 + if here % 8 != 0 then 1 else 0
  }

  /** get_iter_start: the first units of the disk are reserved. */
  function IterStart(index: nat, i: nat): nat {
    if index != 0 || i != 0 then 0 else RESERVED
  }

  /** calc_alloc_block. */
  function AllocBlock(shift: nat, index: nat, i: nat, j: nat): nat
    requires 9 <= shift <= 12
  {
    (index * UNITS_PER_INDEX + i * 8 + j) * UNIT_SIZE / SectorSize(shift)
  }

  /** calc_index_id: index, byte and bit of a sector. */
  function IndexOf(shift: nat, block: nat): (nat, nat, nat)
    requires 9 <= shift <= 12
  {
    var units := block * SectorSize(shift) / UNIT_SIZE;
    (units / UNITS_PER_INDEX, units % UNITS_PER_INDEX / 8, units % UNITS_PER_INDEX % 8)
  }

  /** The unit of a bitmap position. */
  function UnitOf(index: nat, bit: nat): nat {
    index * UNITS_PER_INDEX + bit
  }

  lemma AllocBlockIsUnitStart(shift: nat, index: nat, i: nat, j: nat)
    requires 9 <= shift <= 12
    ensures AllocBlock(shift, index, i, j) == UnitOf(index, 8 * i + j) * SectorsPerUnit(shift)
  {
    var u := UnitOf(index, 8 * i + j);
    assert index * UNITS_PER_INDEX + i * 8 + j == u;
  }

  /** Any sector of unit u leads back to the bitmap position of u. */
  lemma {:induction false} IndexOfInverts(shift: nat, index: nat, i: nat, j: nat, sector: nat)
    requires 9 <= shift <= 12 && i < BMAP_ENTRIES && j < 8 && sector < SectorsPerUnit(shift)
    ensures IndexOf(shift, AllocBlock(shift, index, i, j) + sector) == (index, i, j)
  {
    var u := UnitOf(index, 8 * i + j);
    AllocBlockIsUnitStart(shift, index, i, j);
    SectorInUnit(shift, u, sector);
    assert 8 * i + j < UNITS_PER_INDEX;
    assert u / UNITS_PER_INDEX == index && u % UNITS_PER_INDEX == 8 * i + j;
  }

  lemma {:induction false} SectorInUnit(shift: nat, u: nat, sector: nat)
    requires 9 <= shift <= 12 && sector < SectorsPerUnit(shift)
    ensures (u * SectorsPerUnit(shift) + sector) * SectorSize(shift) / UNIT_SIZE == u
  {
    if shift == 9 {
    } else if shift == 10 {
    } else if shift == 11 {
    } else {
    }
  }

  lemma {:induction false} UnitStarts(shift: nat, u: nat)
    requires 9 <= shift <= 12
    ensures u * SectorsPerUnit(shift) % SectorsPerUnit(shift) == 0
  {
    if shift == 9 {
      assert SectorsPerUnit(9) == 0x2_0000 && u * 0x2_0000 % 0x2_0000 == 0;
    } else if shift == 10 {
      assert SectorsPerUnit(10) == 0x1_0000 && u * 0x1_0000 % 0x1_0000 == 0;
    } else if shift == 11 {
      assert SectorsPerUnit(11) == 0x8000 && u * 0x8000 % 0x8000 == 0;
    } else {
      assert SectorsPerUnit(12) == 0x4000 && u * 0x4000 % 0x4000 == 0;
    }
  }

  lemma {:induction false} StartsDiffer(shift: nat, u: nat, v: nat)
    requires 9 <= shift <= 12 && u != v
    ensures u * SectorsPerUnit(shift) != v * SectorsPerUnit(shift)
  {
    if shift == 9 {
    } else if shift == 10 {
    } else if shift == 11 {
    } else {
    }
  }

  /** Units of one disk that begin at different sectors have none in common. */
  lemma {:induction false} StartsApart(shift: nat, a: nat, b: nat)
    requires 9 <= shift <= 12 && a % SectorsPerUnit(shift) == 0 && b % SectorsPerUnit(shift) == 0 && a != b
    ensures a + SectorsPerUnit(shift) <= b || b + SectorsPerUnit(shift) <= a
  {
    var n := SectorsPerUnit(shift);
    var i, j := a / n, b / n;
    WholeUnits(shift, a);
    WholeUnits(shift, b);
    hide SectorsPerUnit;
    if i < j {
      MultiplesApart(n, i, j);
    } else if j < i {
      MultiplesApart(n, j, i);
    }
  }

  lemma {:induction false} WholeUnits(shift: nat, a: nat)
    requires 9 <= shift <= 12 && a % SectorsPerUnit(shift) == 0
    ensures a == SectorsPerUnit(shift) * (a / SectorsPerUnit(shift))
  {
    if shift == 9 {
    } else if shift == 10 {
    } else if shift == 11 {
    } else {
    }
  }

  lemma {:induction false} MultiplesApart(n: nat, i: nat, j: nat)
    requires i < j
    ensures n * i + n <= n * j
    decreases j
  {
    if i + 1 < j {
      MultiplesApart(n, i, j - 1);
    }
    assert n * j == n * (j - 1) + n;
  }
}
