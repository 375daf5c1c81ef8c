/**
 The flash driver over a byte-addressed memory that it changes in place. The Renesas flash library is
 specified by contract: each write or erase of one block succeeds, or fails and leaves that block in any state.
 */
module FlashIap {
  import opened Division
  import opened FlashLayout

  type Byte = int

  const ERASE_VALUE: Byte := 0xFF
  const FLASH_SUCCESS := 0

  const RAM_START := 0x4
  const RAM_END := 0x0004_0000
  const RAM2_START := 0x0080_0000
  const RAM2_END := 0x0086_0000

  /** What becomes of the n-th library call of an operation: it succeeds, or it fails with a positive status
      and leaves the byte at offset i of its block as `left(i)`. */
  datatype Outcome = Success | Failure(status: int, left: int -> Byte)

  type Script = nat -> Outcome

  function Status(o: Outcome): int {
    if o.Success? then FLASH_SUCCESS else o.status
  }

  ghost predicate PositiveStatuses(script: Script) {
    forall n :: script(n).Failure? ==> script(n).status > 0
  }

  ghost predicate AllSucceed(script: Script, calls: int) {
    forall n: nat :: n < calls ==> script(n).Success?
  }

  /** The bytes an operation may touch: `program` with size zero still writes one page. */
  function Span(size: U32): int {
    if size <= PAGE then PAGE else size
  }

  /** The buffer and the range do not overlap. */
  predicate Separate(buffer: U32, addr: U32, size: U32) {
    buffer + Span(size) <= addr || addr + Span(size) <= buffer
  }

  predicate IsRamAddr(addr: U32) {
    RAM_START <= addr < RAM_END || RAM2_START <= addr < RAM2_END
  }

  /** is_aligned_to_sector, with the size of the sector that holds the first address. */
  predicate AlignedToSector(l: Layout, addr: U32, size: U32) {
    AlignedTo(addr, size, SectorSize(l, addr))
  }

  predicate Erasable(l: Layout, addr: U32, size: U32) {
    LaysInBoundary(l, addr, size) && AlignedToSector(l, addr, size)
  }

  /** The addresses `erase` reaches up to `end`: all of the range, but beyond a crossing into the small sectors only
      the first small sector of every large one, because it keeps the step of the sector it started in. */
  predicate Erased(l: Layout, addr: U32, end: int, a: int) {
    addr <= a < end && (addr < l.block7 <= a ==> a % 32768 < 8192)
  }

  /** An accepted range is erased in full if and only if it does not cross from large sectors into small ones. */
  lemma ErasedInFullIff(l: Layout, addr: U32, size: U32)
    requires ValidLayout(l) && Erasable(l, addr, size) && addr + size < ADDRESS_SPACE
    ensures var end := addr + size;
            (forall a :: addr <= a < end ==> Erased(l, addr, end, a)) <==> !(addr < l.block7 < end)
  {
    if addr < l.block7 < addr + size {
      SecondSmallSector(l, addr, size);
    }
  }

  /** A range that crosses into the small sectors misses the second of them. */
  lemma SecondSmallSector(l: Layout, addr: U32, size: U32)
    requires l.block7 % LARGE_SECTOR == 0 && addr < l.block7 < addr + size
    requires addr % LARGE_SECTOR == 0 && size % LARGE_SECTOR == 0
    ensures l.block7 + SMALL_SECTOR < addr + size && !Erased(l, addr, addr + size, l.block7 + SMALL_SECTOR)
  {
    Divided(addr, LARGE_SECTOR);
    Divided(size, LARGE_SECTOR);
    Divided(l.block7, LARGE_SECTOR);
    DivMod(addr + size, LARGE_SECTOR, addr / LARGE_SECTOR + size / LARGE_SECTOR, 0);
    MultiplesApart(l.block7, addr + size, LARGE_SECTOR);
    DivMod(l.block7 + SMALL_SECTOR, LARGE_SECTOR, l.block7 / LARGE_SECTOR, SMALL_SECTOR);
  }

  /** Where the erase loop stands after n blocks. */
  function BlockStart(l: Layout, addr: U32, n: nat): int {
    addr + SectorSize(l, addr) * n
  }

  /** The erase loop has done `done` of its `total` blocks and stands at `current`. */
  ghost predicate AtBlock(l: Layout, addr: U32, size: U32, current: int, done: int, total: int) {
    var step := SectorSize(l, addr);
    0 <= done <= total && current - addr == step * done && step * total == size && current % step == 0
  }

  /** One step of the erase loop: the current address starts a sector inside the flash, and that sector adds
      exactly what one more step adds to the erased addresses. */
  lemma NextBlock(l: Layout, addr: U32, size: U32, current: int, done: int, total: int)
    requires ValidLayout(l) && Erasable(l, addr, size) && addr + size < ADDRESS_SPACE
    requires AtBlock(l, addr, size, current, done, total) && done < total
    ensures addr <= current < current + SectorSize(l, addr) <= addr + size && current == BlockStart(l, addr, done)
    ensures AtBlock(l, addr, size, current + SectorSize(l, addr), done + 1, total)
    ensures IsSector(l, current) && current + SectorSize(l, current) <= ADDRESS_SPACE
    ensures forall a :: Erased(l, addr, current + SectorSize(l, addr), a)
                        <==> Erased(l, addr, current, a) || InSector(l, current, a)
  {
    hide Erased, InSector, IsSector;
    StepFits(SectorSize(l, addr), done, total);
    WithinFlash(l, addr, size, current, done, total);
    forall a
      ensures Erased(l, addr, current + SectorSize(l, addr), a)
              <==> Erased(l, addr, current, a) || InSector(l, current, a)
    {
      BlockAdds(l, addr, current, a);
    }
    BlockAdds(l, addr, current, addr);
  }

  lemma WithinFlash(l: Layout, addr: U32, size: U32, current: int, done: int, total: int)
    requires ValidLayout(l) && Erasable(l, addr, size) && addr + size < ADDRESS_SPACE
    requires AtBlock(l, addr, size, current, done, total) && done < total
    ensures l.cfStart <= addr <= current <= l.cfEnd && current + SectorSize(l, addr) <= addr + size
  {
    StepFits(SectorSize(l, addr), done, total);
  }

  lemma StepFits(step: int, done: int, total: int)
    requires step > 0 && 0 <= done < total
    ensures 0 <= step * done && step * (done + 1) == step * done + step <= step * total
  {
    Times(step, done + 1, total);
    Times(step, 0, done);
  }

  lemma BlockAdds(l: Layout, addr: U32, current: int, a: int)
    requires ValidLayout(l) && l.cfStart <= addr <= current <= l.cfEnd && current % SectorSize(l, addr) == 0
    ensures var step := SectorSize(l, addr);
            && IsSector(l, current) && SectorSize(l, current) <= step && (current + step) % step == 0
            && (Erased(l, addr, current + step, a)
                <==> Erased(l, addr, current, a) || InSector(l, current, a))
  {
    if addr < l.block7 {
      AfterLargeStep(l, addr, current, a);
    } else {
      assert SectorSize(l, current) == SectorSize(l, addr) == SMALL_SECTOR;
    }
  }

  lemma FirstBlock(l: Layout, addr: U32, size: U32)
    requires Erasable(l, addr, size)
    ensures size / SectorSize(l, addr) >= 0 && AtBlock(l, addr, size, addr, 0, size / SectorSize(l, addr))
    ensures forall a :: !Erased(l, addr, addr, a)
    ensures DistinctSectors(l, [], addr, addr)
  {
    var step := SectorSize(l, addr);
    Divided(size, step);
    if size / step < 0 {
      Times(step, size / step, -1);
    }
  }

  lemma LastBlock(l: Layout, addr: U32, size: U32, current: int, total: int)
    requires AtBlock(l, addr, size, current, total, total)
    ensures current == addr + size && SectorSize(l, addr) * total == size
  {
  }

  /** The addresses are starts of sectors, in rising order, all in [low, high). */
  ghost predicate DistinctSectors(l: Layout, starts: seq<int>, low: int, high: int) {
    && (forall i :: 0 <= i < |starts| ==>
          low <= starts[i] < high && 0 <= starts[i] < ADDRESS_SPACE && IsSector(l, starts[i]))
    && forall i, j :: 0 <= i < j < |starts| ==> starts[i] < starts[j]
  }

  lemma OneMoreSector(l: Layout, starts: seq<int>, low: int, high: int, next: int)
    requires DistinctSectors(l, starts, low, high) && 0 <= low <= high < next
    requires high < ADDRESS_SPACE && IsSector(l, high)
    ensures DistinctSectors(l, starts + [high], low, next)
  {
  }

  lemma AfterLargeStep(l: Layout, addr: U32, current: int, a: int)
    requires l.block7 % LARGE_SECTOR == 0 && l.cfStart <= addr < l.block7
    requires addr <= current <= l.cfEnd && current % LARGE_SECTOR == 0
    ensures (current + LARGE_SECTOR) % LARGE_SECTOR == 0
    ensures IsSector(l, current) && SectorSize(l, current) <= LARGE_SECTOR
    ensures Erased(l, addr, current, a) || InSector(l, current, a)
            <==> Erased(l, addr, current + LARGE_SECTOR, a)
  {
    DivMod(current + LARGE_SECTOR, LARGE_SECTOR, current / LARGE_SECTOR + 1, 0);
    if current < l.block7 {
      MultiplesApart(current, l.block7, LARGE_SECTOR);
    } else {
      LargeIsSmall(current);
      InFirstSmallSector(current, a);
    }
  }

  lemma InFirstSmallSector(current: int, a: int)
    requires current % LARGE_SECTOR == 0
    ensures current <= a < current + LARGE_SECTOR ==> (a % LARGE_SECTOR < SMALL_SECTOR <==> a < current + SMALL_SECTOR)
  {
    if current <= a < current + LARGE_SECTOR {
      Divided(current, LARGE_SECTOR);
      DivMod(a, LARGE_SECTOR, current / LARGE_SECTOR, a - current);
    }
  }

  /** What the erase of one block leaves at an offset of it. */
  function LeftByErase(o: Outcome, offset: int): Byte {
    if o.Success? then ERASE_VALUE else o.left(offset)
  }

  /** A byte of the memory `m` after n blocks, whatever became of each. */
  function ByteAfter(l: Layout, script: Script, m: seq<Byte>, addr: U32, n: nat, a: int): Byte
    requires 0 <= a < |m|
    decreases n
  {
    if n == 0 then m[a]
    else
      var start := BlockStart(l, addr, n - 1);
      if InSector(l, start, a) then LeftByErase(script(n - 1), a - start) else ByteAfter(l, script, m, addr, n - 1, a)
  }

  /** `erase` returns zero on an accepted range. */
  predicate ReturnsZero(l: Layout, script: Script, addr: U32, size: U32) {
    var n := size / SectorSize(l, addr);
    n <= 0 || script(n - 1).Success?
  }

  /** Then the whole range is erased. */
  ghost predicate ZeroMeansErased(l: Layout, script: Script, m: seq<Byte>, addr: U32, size: U32)
    requires addr + size <= |m|
  {
    var n := size / SectorSize(l, addr);
    n >= 0 && ReturnsZero(l, script, addr, size) ==>
      forall a :: addr <= a < addr + size ==> ByteAfter(l, script, m, addr, n, a) == 0xFF
  }

  /** The first block fails and is left full of zeros; the others are erased. */
  function FirstFails(): Script {
    n => if n == 0 then Failure(1, _ => 0) else Success
  }

  lemma {:induction false} FirstBlockLost(l: Layout, m: seq<Byte>, addr: U32, n: nat)
    requires n >= 1 && addr < |m|
    ensures ByteAfter(l, FirstFails(), m, addr, n, addr) == 0
  {
    if n == 1 {
      assert BlockStart(l, addr, 0) == addr;
    } else {
      FirstBlockLost(l, m, addr, n - 1);
      Times(SectorSize(l, addr), 1, n - 1);
    }
  }

  /** A zero result guarantees that an accepted range is erased, whatever became of each block, if and only if the
      range is no longer than one sector: the result is that of the last block alone. */
  lemma ZeroMeansErasedIff(l: Layout, addr: U32, size: U32)
    requires ValidLayout(l) && Erasable(l, addr, size) && addr + size < ADDRESS_SPACE
    ensures (forall script: Script, m: seq<Byte> :: PositiveStatuses(script) && |m| == ADDRESS_SPACE ==>
               ZeroMeansErased(l, script, m, addr, size))
            <==> size <= SectorSize(l, addr)
  {
    hide ByteAfter, ValidLayout, LaysInBoundary, SectorSize;
    var step := SectorSize(l, addr);
    if size > step {
      SeveralBlocks(l, addr, size);
    } else {
      forall script: Script, m: seq<Byte> | PositiveStatuses(script) && |m| == ADDRESS_SPACE
        ensures ZeroMeansErased(l, script, m, addr, size)
      {
        OneBlock(l, script, m, addr, size);
      }
    }
  }

  lemma SeveralBlocks(l: Layout, addr: U32, size: U32)
    requires addr + size < ADDRESS_SPACE && size > SectorSize(l, addr) && size % SectorSize(l, addr) == 0
    ensures PositiveStatuses(FirstFails())
    ensures var m := seq(ADDRESS_SPACE, _ => 0);
            ReturnsZero(l, FirstFails(), addr, size) && !ZeroMeansErased(l, FirstFails(), m, addr, size)
  {
    hide ByteAfter, SectorSize;
    var step := SectorSize(l, addr);
    var m := seq(ADDRESS_SPACE, _ => 0);
    Divided(size, step);
    if size / step < 2 {
      Times(step, size / step, 1);
    }
    FirstBlockLost(l, m, addr, size / step);
  }

  lemma OneBlock(l: Layout, script: Script, m: seq<Byte>, addr: U32, size: U32)
    requires addr + size <= |m| && size <= SectorSize(l, addr) && size % SectorSize(l, addr) == 0
    ensures ZeroMeansErased(l, script, m, addr, size)
  {
    var step := SectorSize(l, addr);
    if size == step {
      DivMod(size, step, 1, 0);
      assert BlockStart(l, addr, 0) == addr;
    } else {
      DivMod(size, step, 0, size);
    }
  }

  /** Two large sectors of a two-megabyte flash: the first block fails, the call returns zero, and the first byte of the
      range is not erased. */
  lemma TwoBlocksLost()
    ensures var l := Layout(0xFFF0_0000, 0xFFF8_0000, 0xFFE0_0000, 0xFFFF_0000, 0xFFFF_FFFF);
            var addr, size := 0xFFF0_0000, 0x1_0000;
            && ValidLayout(l) && Erasable(l, addr, size) && PositiveStatuses(FirstFails())
            && ReturnsZero(l, FirstFails(), addr, size)
            && forall m: seq<Byte> :: |m| == ADDRESS_SPACE ==>
                                        ByteAfter(l, FirstFails(), m, addr, 2, addr) != ERASE_VALUE
  {
    var l := Layout(0xFFF0_0000, 0xFFF8_0000, 0xFFE0_0000, 0xFFFF_0000, 0xFFFF_FFFF);
    forall m: seq<Byte> | |m| == ADDRESS_SPACE
      ensures ByteAfter(l, FirstFails(), m, 0xFFF0_0000, 2, 0xFFF0_0000) == 0
    {
      FirstBlockLost(l, m, 0xFFF0_0000, 2);
    }
  }

  class Flash {
    const layout: Layout
    const memory: array<Byte>    // indexed by address
    const errFailure: int        // FLASH_ERR_FAILURE
    const script: Script

    constructor (l: Layout, m: array<Byte>, failure: int, environment: Script)
      ensures layout == l && memory == m && errFailure == failure && script == environment
    {
      layout, memory, errFailure, script := l, m, failure, environment;
    }

    ghost predicate Valid() {
      ValidLayout(layout) && memory.Length == ADDRESS_SPACE && errFailure > 0 && PositiveStatuses(script)
    }

    /** memcmp of two stretches of memory. */
    predicate Same(a: int, b: int, size: int)
      requires 0 <= a && 0 <= b && a + size <= memory.Length && b + size <= memory.Length
      reads memory
    {
      forall i :: b <= i < b + size ==> memory[i] == memory[a + (i - b)]
    }

    /** R_FLASH_Write of one page. */
    method WritePage(data: seq<Byte>, dst: int, call: nat) returns (status: int)
      requires Valid() && |data| == PAGE && 0 <= dst && dst + PAGE <= memory.Length
      modifies memory
      ensures status == Status(script(call))
      ensures forall a :: 0 <= a < memory.Length && !(dst <= a < dst + PAGE) ==> memory[a] == old(memory[a])
      ensures script(call).Success? ==> forall k :: 0 <= k < PAGE ==> memory[dst + k] == data[k]
    {
      match script(call)
      case Success =>
        forall k | 0 <= k < PAGE {
          memory[dst + k] := data[k];
        }
        status := FLASH_SUCCESS;
      case Failure(code, left) =>
        forall k | 0 <= k < PAGE {
          memory[dst + k] := left(k);
        }
        status := code;
    }

    /** One pass of the program loop: the page goes straight from RAM, or through the bounce buffer. */
    method ProgramPage(source: int, dst: int, call: nat) returns (status: int)
      requires Valid() && 0 <= source && source + PAGE <= memory.Length && 0 <= dst && dst + PAGE <= memory.Length
      modifies memory
      ensures status == Status(script(call))
      ensures forall a :: 0 <= a < memory.Length && !(dst <= a < dst + PAGE) ==> memory[a] == old(memory[a])
      ensures script(call).Success? ==>
                forall a :: dst <= a < dst + PAGE ==> memory[a] == old(memory[source + (a - dst)])
    {
      var data: seq<Byte>;
      if IsRamAddr(source) {
        data := memory[source..source + PAGE];
      } else {
        var bounce := new Byte[PAGE];
        forall k | 0 <= k < PAGE {
          bounce[k] := memory[source + k];
        }
        data := bounce[..];
      }
      assert forall k :: 0 <= k < PAGE ==> data[k] == memory[source + k];
      status := WritePage(data, dst, call);
      if script(call).Success? {
        forall a | dst <= a < dst + PAGE
          ensures memory[a] == old(memory[source + (a - dst)])
        {
          assert memory[dst + (a - dst)] == data[a - dst];
        }
      }
    }

    /** FlashIAP::program. It returns zero exactly when it accepted the range, the last page was written
        without error, and the whole range now equals the buffer, which is what the buffer held before if the two
        do not overlap; no byte outside the range changes, whatever happened to any page and whichever way its
        data came. */
    method Program(buffer: U32, addr: U32, size: U32) returns (result: int)
      requires Valid()
      requires buffer + Span(size) <= ADDRESS_SPACE && addr + Span(size) <= ADDRESS_SPACE
      modifies memory
      ensures result == 0 <==>
              LaysInBoundary(layout, addr, size) && script(Span(size) / PAGE - 1).Success? && Same(buffer, addr, size)
      ensures result != 0 ==>
                var last := script(Span(size) / PAGE - 1);
                result == if LaysInBoundary(layout, addr, size) && last.Failure? then -last.status else -errFailure
      ensures !LaysInBoundary(layout, addr, size) ==> memory[..] == old(memory[..])
      ensures forall a :: 0 <= a < memory.Length && !(addr <= a < addr + Span(size)) ==> memory[a] == old(memory[a])
      ensures result == 0 && Separate(buffer, addr, size) ==>
                forall a :: addr <= a < addr + size ==> memory[a] == old(memory[buffer + (a - addr)])
      ensures LaysInBoundary(layout, addr, size) && Separate(buffer, addr, size) ==>
                (AllSucceed(script, Span(size) / PAGE) ==> result == 0)
    {
      var status := FLASH_SUCCESS;
      if !LaysInBoundary(layout, addr, size) {
        return -errFailure;
      }
      var cycles := 1;
      if size > PAGE {
        cycles := size / PAGE;
      }
      var readPointer: int := buffer;
      var writePointer: int := addr;
      var total := cycles;
      while cycles != 0
        invariant 0 <= cycles <= total && PAGE * total == Span(size)
        invariant readPointer == buffer + PAGE * (total - cycles)
        invariant writePointer == addr + PAGE * (total - cycles)
        invariant cycles < total ==> status == Status(script(total - cycles - 1))
        invariant forall a :: 0 <= a < memory.Length && !(addr <= a < writePointer) ==> memory[a] == old(memory[a])
        invariant AllSucceed(script, total - cycles) && Separate(buffer, addr, size) ==>
                    forall a :: addr <= a < writePointer ==> memory[a] == memory[buffer + (a - addr)]
      {
        status := ProgramPage(readPointer, writePointer, total - cycles);
        readPointer := readPointer + PAGE;
        writePointer := writePointer + PAGE;
        cycles := cycles - 1;
      }
      assert Separate(buffer, addr, size) ==>
          forall a :: buffer <= a < buffer + size ==> memory[a] == old(memory[a]);
      if status == FLASH_SUCCESS {
        if !Same(buffer, addr, size) {
          status := errFailure;
        }
      }
      result := if status == FLASH_SUCCESS then 0 else -status;
    }

    /** R_FLASH_Erase of the one block that starts at `start`. */
    method EraseBlock(start: U32, call: nat) returns (status: int)
      requires Valid() && IsSector(layout, start) && start + SectorSize(layout, start) <= memory.Length
      modifies memory
      ensures status == Status(script(call))
      ensures forall a :: 0 <= a < memory.Length && !InSector(layout, start, a) ==> memory[a] == old(memory[a])
      ensures forall a :: 0 <= a < memory.Length && InSector(layout, start, a) ==>
                            memory[a] == LeftByErase(script(call), a - start)
    {
      match script(call)
      case Success =>
        forall a | start <= a < start + SectorSize(layout, start) {
          memory[a] := ERASE_VALUE;
        }
        status := FLASH_SUCCESS;
      case Failure(code, left) =>
        forall a | start <= a < start + SectorSize(layout, start) {
          memory[a] := left(a - start);
        }
        status := code;
    }

    /** The loop of `erase`. */
    method EraseBlocks(addr: U32, size: U32) returns (status: int, ghost visits: seq<int>)
      requires Valid() && addr + size < ADDRESS_SPACE && Erasable(layout, addr, size)
      modifies memory
      ensures SectorSize(layout, addr) * |visits| == size
      ensures status == if visits == [] then FLASH_SUCCESS else Status(script(|visits| - 1))
      ensures DistinctSectors(layout, visits, addr, addr + size)
      ensures forall a :: 0 <= a < memory.Length && !Erased(layout, addr, addr + size, a) ==>
                            memory[a] == old(memory[a])
      ensures AllSucceed(script, |visits|) ==>
                forall a :: 0 <= a < memory.Length && Erased(layout, addr, addr + size, a) ==> memory[a] == 0xFF
      ensures forall a :: 0 <= a < memory.Length ==>
                memory[a] == ByteAfter(layout, script, old(memory[..]), addr, |visits|, a)
    {
      hide AtBlock, BlockStart, DistinctSectors, Erased, Erasable, SectorSize, InSector, IsSector, ValidLayout;
      var step := SectorSize(layout, addr);
      var blocks := size / step;
      var current: int := addr;
      var total := blocks;
      FirstBlock(layout, addr, size);
      status, visits := FLASH_SUCCESS, [];
      while blocks != 0
        invariant 0 <= blocks <= total && |visits| == total - blocks
        invariant AtBlock(layout, addr, size, current, |visits|, total)
        invariant status == if visits == [] then FLASH_SUCCESS else Status(script(|visits| - 1))
        invariant DistinctSectors(layout, visits, addr, current)
        invariant forall a :: 0 <= a < memory.Length && !Erased(layout, addr, current, a) ==>
                    memory[a] == old(memory[a])
        invariant AllSucceed(script, |visits|) ==>
                    forall a :: 0 <= a < memory.Length && Erased(layout, addr, current, a) ==>
                      memory[a] == ERASE_VALUE
        invariant forall a :: 0 <= a < memory.Length ==>
                    memory[a] == ByteAfter(layout, script, old(memory[..]), addr, |visits|, a)
      {
        NextBlock(layout, addr, size, current, |visits|, total);
        OneMoreSector(layout, visits, addr, current, current + step);
        status := EraseBlock(current, total - blocks);
        visits := visits + [current];
        current := current + step;
        assert forall a :: Erased(layout, addr, current, a) <==>
                             Erased(layout, addr, current - step, a) || InSector(layout, current - step, a);
        blocks := blocks - 1;
      }
      LastBlock(layout, addr, size, current, total);
    }

    /** FlashIAP::erase. The blocks it erases are distinct sectors in rising order; it returns zero exactly when
        it accepted the range and the last of them succeeded, it changes nothing outside `Erased`, and when
        every block succeeds it sets exactly `Erased` to the erase value. */
    method Erase(addr: U32, size: U32) returns (result: int, ghost visits: seq<int>)
      requires Valid() && addr + size < ADDRESS_SPACE
      modifies memory
      ensures result == 0 <==> Erasable(layout, addr, size) && (visits == [] || script(|visits| - 1).Success?)
      ensures result != 0 ==>
                result == if Erasable(layout, addr, size) then -Status(script(|visits| - 1)) else -errFailure
      ensures !Erasable(layout, addr, size) ==> visits == [] && memory[..] == old(memory[..])
      ensures Erasable(layout, addr, size) ==>
                SectorSize(layout, addr) * |visits| == size && DistinctSectors(layout, visits, addr, addr + size)
      ensures forall a :: 0 <= a < memory.Length && !Erased(layout, addr, addr + size, a) ==>
                            memory[a] == old(memory[a])
      ensures Erasable(layout, addr, size) && AllSucceed(script, |visits|) ==>
                forall a :: 0 <= a < memory.Length && Erased(layout, addr, addr + size, a) ==> memory[a] == 0xFF
      ensures Erasable(layout, addr, size) ==>
                && (result == 0 <==> ReturnsZero(layout, script, addr, size))
                && |visits| == size / SectorSize(layout, addr)
                && forall a :: 0 <= a < memory.Length ==>
                     memory[a] == ByteAfter(layout, script, old(memory[..]), addr, |visits|, a)
    {
      hide DistinctSectors, Erased, SectorSize, LaysInBoundary, AlignedToSector;
      visits := [];
      if !LaysInBoundary(layout, addr, size) {
        return -errFailure, visits;
      }
      if !AlignedToSector(layout, addr, size) {
        return -errFailure, visits;
      }
      var status;
      status, visits := EraseBlocks(addr, size);
      DivMod(size, SectorSize(layout, addr), |visits|, 0);
      result := if status == FLASH_SUCCESS then 0 else -status;
    }
  }
}
