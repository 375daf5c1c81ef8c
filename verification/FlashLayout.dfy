/** Checks and sector geometry of the code-flash driver. Addresses and sizes are unsigned 32-bit. */
module FlashLayout {
  import opened Division

  const ADDRESS_SPACE := 0x1_0000_0000
  const PAGE := 128
  const SMALL_SECTOR := 8192
  const LARGE_SECTOR := 32768
  const INVALID_SIZE := 0xFFFF_FFFF

  type U32 = n: int | 0 <= n < ADDRESS_SPACE

  /** The area the driver may write, and the code flash around it: large sectors up to `block7`, small
      ones from there to `cfEnd`, which is the last byte of the flash. */
  datatype Layout = Layout(areaStart: U32, areaEnd: U32, cfStart: U32, block7: U32, cfEnd: U32)

  predicate ValidLayout(l: Layout) {
    && l.cfStart % LARGE_SECTOR == 0 && l.block7 % LARGE_SECTOR == 0 && (l.cfEnd + 1) % SMALL_SECTOR == 0
    && l.cfStart <= l.block7 <= l.cfEnd
    && l.cfStart <= l.areaStart <= l.areaEnd <= l.cfEnd
  }

  predicate AlignedTo(addr: U32, size: U32, alignment: U32)
    requires alignment > 0
  {
    addr % alignment == 0 && size % alignment == 0
  }

  /** is_lay_in_boundary; the sum wraps. */
  predicate LaysInBoundary(l: Layout, addr: U32, size: U32) {
    && !(addr > l.areaEnd || addr < l.areaStart || (addr + size) % ADDRESS_SPACE > l.areaEnd)
    && AlignedTo(addr, size, PAGE)
  }

  /** For a range that ends within the address space the check is exact: it accepts the aligned ranges of
      the area. What else it accepts are ranges whose end wraps around, and none of those lies in the area. */
  lemma BoundaryIsExact(l: Layout, addr: U32, size: U32)
    ensures addr + size < ADDRESS_SPACE ==>
              (LaysInBoundary(l, addr, size) <==>
                 addr % 128 == 0 && size % 128 == 0 && l.areaStart <= addr && addr + size <= l.areaEnd)
    ensures LaysInBoundary(l, addr, size) ==> (addr + size <= l.areaEnd <==> addr + size < ADDRESS_SPACE)
  {
  }

  /** An accepted range whose end wraps: it begins in the area and reaches around to before it. */
  lemma WrappingRangeAccepted()
    ensures var l := Layout(0xFFF0_0000, 0xFFF8_0000, 0xFFE0_0000, 0xFFFF_0000, 0xFFFF_FFFF);
            ValidLayout(l) && LaysInBoundary(l, 0xFFF0_0000, 0xFFFF_8000) && 0xFFF0_0000 + 0xFFFF_8000 > ADDRESS_SPACE
  {
  }

  function SectorSize(l: Layout, addr: int): (size: U32)
    ensures size > 0
  {
    if addr > l.cfEnd || addr < l.cfStart then INVALID_SIZE
    else if addr >= l.block7 then SMALL_SECTOR
    else LARGE_SECTOR
  }

  /** The sector that holds an address of the code flash. */
  function SectorStart(l: Layout, addr: U32): int {
    addr - addr % SectorSize(l, addr)
  }

  predicate InSector(l: Layout, start: int, a: int) {
    start <= a < start + SectorSize(l, start)
  }

  /** `start` is the first address of a sector of the code flash. */
  predicate IsSector(l: Layout, start: U32) {
    l.cfStart <= start <= l.cfEnd && start % SectorSize(l, start) == 0
  }

  lemma MultiplesApart(a: int, b: int, m: int)
    requires 0 < m && a % m == 0 && b % m == 0 && a < b
    ensures a + m <= b
  {
    var x, y := a / m, b / m;
    Divided(a, m);
    Divided(b, m);
    Times(m, y, x);
    Times(m, x + 1, y);
    assert m * (x + 1) == m * x + m;
  }

  /** The two kinds of sectors tile the code flash: every address lies in exactly one, which is wholly inside it. */
  lemma SectorsTile(l: Layout, a: U32)
    requires ValidLayout(l) && l.cfStart <= a <= l.cfEnd
    ensures var s := SectorStart(l, a);
            && 0 <= s < ADDRESS_SPACE && IsSector(l, s) && InSector(l, s, a)
            && s + SectorSize(l, s) <= l.cfEnd + 1
            && SectorSize(l, s) == (if a >= l.block7 then 8192 else 32768)
            && forall t: U32 :: IsSector(l, t) && InSector(l, t, a) ==> t == s
  {
    SectorAround(l, a);
    forall t: U32 | IsSector(l, t) && InSector(l, t, a)
      ensures t == SectorStart(l, a)
    {
      OnlySector(l, a, t);
    }
  }

  lemma SectorAround(l: Layout, a: U32)
    requires ValidLayout(l) && l.cfStart <= a <= l.cfEnd
    ensures var s := SectorStart(l, a);
            && 0 <= s && l.cfStart <= s && SectorSize(l, s) == SectorSize(l, a) && s % SectorSize(l, a) == 0
            && s <= a < s + SectorSize(l, a) <= l.cfEnd + 1
  {
    if a >= l.block7 {
      LargeIsSmall(l.block7);
      RoundDown(a, SMALL_SECTOR, l.block7, l.cfEnd + 1);
    } else {
      RoundDown(a, LARGE_SECTOR, l.cfStart, l.block7);
    }
  }

  lemma LargeIsSmall(a: int)
    requires a % LARGE_SECTOR == 0
    ensures a % SMALL_SECTOR == 0
  {
    Divided(a, LARGE_SECTOR);
    DivMod(a, SMALL_SECTOR, 4 * (a / LARGE_SECTOR), 0);
  }

  lemma RoundDown(a: int, size: int, low: int, high: int)
    requires 0 < size && low % size == 0 && high % size == 0 && low <= a < high
    ensures (a - a % size) % size == 0 && low <= a - a % size <= a < a - a % size + size <= high
  {
    var s := a - a % size;
    Divided(a, size);
    DivMod(s, size, a / size, 0);
    if s < low {
      MultiplesApart(s, low, size);
    }
    MultiplesApart(s, high, size);
  }

  lemma OnlySector(l: Layout, a: U32, t: U32)
    requires ValidLayout(l) && l.cfStart <= a <= l.cfEnd && IsSector(l, t) && InSector(l, t, a)
    ensures t == SectorStart(l, a)
  {
    SectorAround(l, a);
    if t < l.block7 {
      MultiplesApart(t, l.block7, LARGE_SECTOR);
    }
    OnlyMultiple(SectorStart(l, a), t, a, SectorSize(l, a));
  }

  lemma OnlyMultiple(s: int, t: int, a: int, size: int)
    requires 0 < size && s % size == 0 && t % size == 0 && s <= a < s + size && t <= a < t + size
    ensures s == t
  {
    if t < s {
      MultiplesApart(t, s, size);
    } else if s < t {
      MultiplesApart(s, t, size);
    }
  }
}
