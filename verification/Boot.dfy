/** Bringing up the memory manager: the memory size, the page allocator and the first tables, from
    the boot loader's memory map. */
module Boot {
  import opened Machine
  import opened Bitmap
  import opened FrameAllocator
  import opened Paging
  import opened VirtualMemory
  import BootTables
  import PagingRuns

  /** The memory size is the sum of the entries' lengths. */
  function Lengths(entries: seq<Region>): nat {
    if entries == [] then 0 else entries[0].length + Lengths(entries[1..])
  }

  /** The frames that the memory map leaves free, among those where runs may start: from frame 512
      on, the last entry covering a frame decides, or else the fill. */
  ghost function FreeAtBoot(entries: seq<Region>, limit: nat, maxBlocks: nat, before: set<nat>): set<nat> {
    set f: nat | f < limit && 512 <= f && !Status(entries, f, Allocator.Prefilled(maxBlocks, f, f in before))
  }

  /** The bitmap and the counter after initPMM, from the frames that were marked before. */
  ghost predicate Initialised(entries: seq<Region>, frames: nat, maxBlocks: u32, before: set<nat>,
                              used: set<nat>, count: u32)
  {
    && (forall f: nat :: f < 512 ==> f in used)
    && (forall f: nat :: 512 <= f < frames ==>
          (f in used <==> Status(entries, f, Allocator.Prefilled(maxBlocks, f, f in before))))
    && count == Wrap(maxBlocks + Drift(entries) - 512)
  }

  /** What that leaves to allocate: the frames the map says, but the counter only says how its
      entries add up. */
  lemma LeftAtBoot(entries: seq<Region>, frames: nat, limit: nat, maxBlocks: u32, before: set<nat>,
                   used: set<nat>, count: u32)
    requires Initialised(entries, frames, maxBlocks, before, used, count) && limit <= frames
    ensures FreeBelow(used, limit) == FreeAtBoot(entries, limit, maxBlocks, before)
    ensures Wrap(maxBlocks - count) == Wrap(512 - Drift(entries))
  {
    var x: int := maxBlocks + Drift(entries) - 512;
    var q := x / 0x1_0000_0000;
    assert x == q * 0x1_0000_0000 + count;
    assert maxBlocks - count == 512 - Drift(entries) + q * 0x1_0000_0000;
    WrapMultiple(512 - Drift(entries), q);
  }

  lemma WrapMultiple(x: int, q: int)
    ensures Wrap(x + q * 0x1_0000_0000) == Wrap(x)
  {
  }

  ghost predicate RefusesAll(used: set<nat>, frames: nat, limit: nat, free: u32) {
    forall n: u32 :: Refused(used, frames, limit, free, n)
  }

  /** Right after initialisation every request is refused if and only if the map leaves no frame
      free, or its entries happen to add up to 512 frames modulo 2^32. */
  lemma GuardAfterInit(entries: seq<Region>, frames: nat, limit: nat, maxBlocks: u32, before: set<nat>,
                       used: set<nat>, count: u32)
    requires Initialised(entries, frames, maxBlocks, before, used, count) && limit <= frames
    ensures RefusesAll(used, frames, limit, Wrap(maxBlocks - count)) <==>
            FreeAtBoot(entries, limit, maxBlocks, before) == {} || Wrap(512 - Drift(entries)) == 0
  {
    LeftAtBoot(entries, frames, limit, maxBlocks, before, used, count);
    var free := FreeBelow(used, limit);
    if free == {} {
      forall n: u32, b: nat | n > 0 && b < limit
        ensures !Fits(used, frames, b, n)
      {
        assert b !in free && b in Interval(b, n);
      }
    } else {
      var b :| b in free;
      SingleFrame(used, frames, b);
      assert Wrap(maxBlocks - count) != 0 ==> !Refused(used, frames, limit, Wrap(maxBlocks - count), 1);
    }
  }

  /** The first walk over the map, which adds up the lengths in 32-bit arithmetic. */
  method Measure(image: nat -> Region, length: u32) returns (memorySize: u32)
    ensures memorySize == Wrap(Lengths(Entries(image, 0, length)))
  {
    memorySize := 0;
    var off: nat := 0;
    ghost var sum: nat := 0;
    while off < length
      invariant memorySize == Wrap(sum)
      invariant Lengths(Entries(image, 0, length)) == sum + Lengths(Entries(image, off, length))
      decreases length - off
    {
      ghost var entries := Entries(image, off, length);
      assert entries[0] == image(off) && entries[1..] == Entries(image, off + image(off).size + 4, length);
      WrapAdd(sum, image(off).length);
      memorySize := Wrap(memorySize + image(off).length);
      sum := sum + image(off).length;
      off := off + image(off).size + 4;
    }
  }

  /** The page allocator, brought up from the map. */
  method InitAllocator(image: nat -> Region, length: u32, memoryMap: array<u32>) returns (pmm: Allocator)
    requires var entries := Entries(image, 0, length);
      && Wrap(Lengths(entries)) / 4096 / 8 < 4 * memoryMap.Length && 512 <= 32 * memoryMap.Length
      && forall e :: e in entries ==> e.Base() + e.Blocks() <= 32 * memoryMap.Length
    modifies memoryMap
    ensures fresh(pmm) && pmm.memoryMap == memoryMap && pmm.Valid()
    ensures pmm.memorySize == Wrap(Lengths(Entries(image, 0, length))) && pmm.maxBlocks == pmm.memorySize / 4096
    ensures Initialised(Entries(image, 0, length), pmm.Size(), pmm.maxBlocks, old(Frames(memoryMap[..])),
                        pmm.Used(), pmm.usedBlocks)
  {
    var memorySize := Measure(image, length);
    pmm := new Allocator(memorySize, memoryMap);
    pmm.InitPMM(image, length);
  }

  /** Of the frames below `limit` the map leaves n free, and the counter admits n allocations. */
  ghost predicate Enough(entries: seq<Region>, limit: nat, maxBlocks: nat, before: set<nat>, n: nat) {
    |FreeAtBoot(entries, limit, maxBlocks, before)| >= n && Wrap(512 - Drift(entries)) >= n
  }

  /** That is exactly what single-frame allocations need. */
  lemma EnoughIff(pmm: Allocator, entries: seq<Region>, before: set<nat>, limit: nat, n: nat)
    requires Initialised(entries, pmm.Size(), pmm.maxBlocks, before, pmm.Used(), pmm.usedBlocks) && limit <= pmm.Size()
    ensures Enough(entries, limit, pmm.maxBlocks, before, n) <==>
            |FreeBelow(pmm.Used(), limit)| >= n && pmm.GetFreeBlockCount() >= n
  {
    LeftAtBoot(entries, pmm.Size(), limit, pmm.maxBlocks, before, pmm.Used(), pmm.usedBlocks);
  }

  /** Single frames taken one after the other, as long as that goes. With frame 0 in use, n of them
      can be had if and only if that many are free and the counter admits them. */
  method TakeFrames(pmm: Allocator, n: nat) returns (all: bool)
    requires pmm.Valid() && 0 in pmm.Used()
    modifies pmm`usedBlocks, pmm.memoryMap
    ensures all <==> old(|FreeBelow(pmm.Used(), pmm.Limit())| >= n && pmm.GetFreeBlockCount() >= n)
  {
    ghost var limit := pmm.Limit();
    for i := 0 to n
      invariant 0 in pmm.Used()
      invariant |FreeBelow(pmm.Used(), limit)| + i == old(|FreeBelow(pmm.Used(), limit)|)
      invariant pmm.GetFreeBlockCount() + i == old(pmm.GetFreeBlockCount())
    {
      var taken := TakeFrame(pmm);
      if !taken {
        return false;
      }
    }
    all := true;
  }

  /** One of them. */
  method TakeFrame(pmm: Allocator) returns (taken: bool)
    requires pmm.Valid() && 0 in pmm.Used()
    modifies pmm`usedBlocks, pmm.memoryMap
    ensures taken <==> old(|FreeBelow(pmm.Used(), pmm.Limit())| > 0 && pmm.GetFreeBlockCount() > 0)
    ensures taken ==>
              && 0 in pmm.Used()
              && |FreeBelow(pmm.Used(), pmm.Limit())| == old(|FreeBelow(pmm.Used(), pmm.Limit())|) - 1
              && pmm.GetFreeBlockCount() == old(pmm.GetFreeBlockCount()) - 1
  {
    ghost var used, count, limit := pmm.Used(), pmm.usedBlocks, pmm.Limit();
    SingleReadable(used, pmm.Size(), limit);
    SingleRefused(used, pmm.Size(), limit, pmm.GetFreeBlockCount());
    var address := pmm.GetFreePhysicalPage(1);
    taken := address != 0;
    if !Refused(used, pmm.Size(), limit, Wrap(pmm.maxBlocks - count), 1) {
      AfterGrant(used, pmm.Size(), limit, pmm.maxBlocks, count, address / 4096);
    }
  }

  /** A request for one frame is refused exactly if the counter says none is free, or none is. */
  lemma SingleRefused(used: set<nat>, frames: nat, limit: nat, free: u32)
    requires limit <= frames
    ensures Refused(used, frames, limit, free, 1) <==> free == 0 || FreeBelow(used, limit) == {}
  {
    if FreeBelow(used, limit) == {} {
      forall b: nat | b < limit
        ensures !Fits(used, frames, b, 1)
      {
        SingleFrame(used, frames, b);
        assert b !in FreeBelow(used, limit);
      }
    } else {
      var b :| b in FreeBelow(used, limit);
      SingleFrame(used, frames, b);
    }
  }

  /** Four of the free frames lie below 1023. */
  ghost predicate FourLowAtBoot(entries: seq<Region>, limit: nat, maxBlocks: nat, before: set<nat>) {
    |FreeAtBoot(entries, if limit < 1023 then limit else 1023, maxBlocks, before)| >= 4
  }

  lemma FourLowIff(pmm: Allocator, entries: seq<Region>, before: set<nat>)
    requires Initialised(entries, pmm.Size(), pmm.maxBlocks, before, pmm.Used(), pmm.usedBlocks)
    requires pmm.Valid() && |FreeBelow(pmm.Used(), pmm.Limit())| >= 4
    ensures FourLowAtBoot(entries, pmm.Limit(), pmm.maxBlocks, before) <==> |FreeBelow(pmm.Used(), 1023)| >= 4
  {
    var low := if pmm.Limit() < 1023 then pmm.Limit() else 1023;
    LeftAtBoot(entries, pmm.Size(), low, pmm.maxBlocks, before, pmm.Used(), pmm.usedBlocks);
    if pmm.Limit() < 1023 {
      Subset(FreeBelow(pmm.Used(), pmm.Limit()), FreeBelow(pmm.Used(), 1023));
    }
  }

  lemma Subset(a: set<nat>, b: set<nat>)
    requires a <= b
    ensures |a| <= |b|
  {
    assert b == a + (b - a);
  }

  /** Paging is up: the address space is the one wanted, the frames behind it all differ, and runs
      of mapPage can follow, inside the kernel window. */
  ghost predicate Up(mm: MemoryManager, before: seq<Entry>, t: Frame, table: Frame, frames: seq<Frame>, unmapped: Frame)
    requires Full(before) && mm.Valid()
    reads mm, mm.ram, mm.pmm.memoryMap
  {
    var dir := mm.currentPageDirectory;
    var s := PagingRuns.Running(mm.ram[..], mm.pmm.Used(), {0, t, dir, table});
    && |frames| == BootTables.HEAP_PAGES && Booted(before, mm.ram[..], t, dir, frames, table)
    && PagingRuns.Tracks(mm, s) && PagingRuns.InWindow(dir, s)
    && Separate({0, t, dir}, frames, unmapped, table)
  }

  /** initVMM, in terms of the frames that are free and those of them below 1023. */
  method InitTables(mm: MemoryManager)
    returns (up: bool, ghost t: Frame, ghost table: Frame, ghost frames: seq<Frame>, ghost unmapped: Frame)
    requires mm.Valid() && mm.root == Boot && Settled(mm.pmm.Used(), 511)
    modifies mm, mm.ram, mm.pmm`usedBlocks, mm.pmm.memoryMap
    ensures mm.Valid() && mm.pmm.maxBlocks == old(mm.pmm.maxBlocks)
    ensures old(mm.Plenty(260)) && old(|FreeBelow(mm.pmm.Used(), 1023)|) >= 4 ==>
              up && Up(mm, old(mm.ram[..]), t, table, frames, unmapped)
    ensures old(mm.Plenty(260)) && old(|FreeBelow(mm.pmm.Used(), 1023)|) < 4 && mm.pmm.Limit() <= 0x4_0000 ==> !up
  {
    ghost var used, enough := mm.pmm.Used(), mm.Plenty(260) && |FreeBelow(mm.pmm.Used(), 1023)| >= 4;
    ghost var before := mm.ram[..];
    assert 0 in used;
    up, t, table, frames, unmapped := mm.InitVMM();
    if enough {
      BootedReady(before, mm.ram[..], used, mm.pmm.Used(), t, mm.currentPageDirectory, frames, unmapped, table);
    }
  }

  /** The state that initVMM leaves is one that runs can start from. */
  lemma BootedReady(before: seq<Entry>, ram: seq<Entry>, used: set<nat>, after: set<nat>, t: Frame, dir: Frame,
                    frames: seq<Frame>, unmapped: Frame, table: Frame)
    requires Full(before) && Full(ram) && |frames| == BootTables.HEAP_PAGES && 0 in used
    requires Booted(before, ram, t, dir, frames, table) && used + {t, dir, table} <= after
    requires Separate(used + {t, dir}, frames, unmapped, table)
    ensures PagingRuns.InWindow(dir, PagingRuns.Running(ram, after, {0, t, dir, table}))
    ensures Separate({0, t, dir}, frames, unmapped, table)
  {
  }

  /** init: from the memory map alone it can be told whether paging comes up. Given that the map
      leaves 260 frames free and its entries add up so that the counter admits 260, it does if the
      map leaves four frames free below 1023; and if not, in a machine with at most 1 GB, the start
      ends in a page fault. */
  method Init(image: nat -> Region, length: u32, memoryMap: array<u32>, ram: array<Entry>)
    returns (up: bool, mm: MemoryManager, ghost t: Frame, ghost table: Frame, ghost frames: seq<Frame>,
             ghost unmapped: Frame)
    requires var entries := Entries(image, 0, length);
      && Wrap(Lengths(entries)) / 4096 / 8 < 4 * memoryMap.Length && 512 <= 32 * memoryMap.Length
      && forall e :: e in entries ==> e.Base() + e.Blocks() <= 32 * memoryMap.Length
    requires ram.Length == 0x4000_0000 && (ram as object) != memoryMap
    modifies memoryMap, ram
    ensures mm.Valid() && mm.ram == ram && mm.pmm.memoryMap == memoryMap
    ensures mm.pmm.memorySize == Wrap(Lengths(Entries(image, 0, length)))
    ensures mm.pmm.maxBlocks == mm.pmm.memorySize / 4096
    ensures var (entries, before) := (Entries(image, 0, length), old(Frames(memoryMap[..])));
      Enough(entries, mm.pmm.Limit(), mm.pmm.maxBlocks, before, 260) ==>
        if FourLowAtBoot(entries, mm.pmm.Limit(), mm.pmm.maxBlocks, before)
        then up && Up(mm, old(ram[..]), t, table, frames, unmapped)
        else mm.pmm.memorySize <= 0x4000_0000 ==> !up
  {
    ghost var entries, before, cells := Entries(image, 0, length), Frames(memoryMap[..]), ram[..];
    var pmm := InitAllocator(image, length, memoryMap);
    EnoughIff(pmm, entries, before, pmm.Limit(), 260);
    if Enough(entries, pmm.Limit(), pmm.maxBlocks, before, 260) {
      FourLowIff(pmm, entries, before);
    }
    mm := new MemoryManager(pmm, ram);
    assert mm.ram[..] == cells && mm.pmm.Used() == pmm.Used();
    up, t, table, frames, unmapped := InitTables(mm);
  }

  /** Two entries, 4 MB reserved and 8 MB available behind them: there are frames enough, but none
      that the kernel can reach, and the start ends in a page fault. */
  method StartFaults(memoryMap: array<u32>, ram: array<Entry>) returns (up: bool, mm: MemoryManager)
    requires memoryMap.Length == 128 && ram.Length == 0x4000_0000 && (ram as object) != memoryMap
    modifies memoryMap, ram
    ensures mm.pmm.memorySize == 0xC0_0000 && !up
  {
    var first, second := Region(20, 0, 0x40_0000, 2), Region(20, 0x40_0000, 0x80_0000, AVAILABLE);
    var image := (off: nat) => if off == 0 then first else second;
    ghost var before := Frames(memoryMap[..]);
    TwoEntries(image, first, second);
    NoneLow(first, second, before);
    ghost var t, table, frames, unmapped;
    up, mm, t, table, frames, unmapped := Init(image, 48, memoryMap, ram);
  }

  lemma NoneLow(first: Region, second: Region, before: set<nat>)
    requires first == Region(20, 0, 0x40_0000, 2) && second == Region(20, 0x40_0000, 0x80_0000, AVAILABLE)
    ensures FreeAtBoot([first, second], 1023, 3072, before) == {}
    ensures Enough([first, second], 3072, 3072, before, 260)
  {
    var entries := [first, second];
    Allocator.Extend([], first);
    Allocator.Extend([first], second);
    assert [] + [first] == [first] && [first] + [second] == entries;
    forall f: nat | f < 3072
      ensures f in FreeAtBoot(entries, 3072, 3072, before) <==> 1024 <= f
    {
    }
    Subset(Interval(1024, 2048), FreeAtBoot(entries, 3072, 3072, before));
    IntervalSize(1024, 2048);
  }

  /** Two entries, 2 MB reserved and 4 MB available behind them: 1024 frames are free, and every
      request is refused. */
  method RefusesEverything() returns (pmm: Allocator)
    ensures pmm.memorySize == 0x60_0000 && forall n: u32 :: pmm.Refuses(n)
    ensures forall f: nat :: 512 <= f < 1536 ==> f !in pmm.Used()
  {
    var first, second := Region(20, 0, 0x20_0000, 2), Region(20, 0x20_0000, 0x40_0000, AVAILABLE);
    var image := (off: nat) => if off == 0 then first else second;
    ghost var entries := Entries(image, 0, 48);
    TwoEntries(image, first, second);
    var memoryMap := new u32[64];
    ghost var before := Frames(memoryMap[..]);
    pmm := InitAllocator(image, 48, memoryMap);
    GuardAfterInit(entries, pmm.Size(), pmm.Limit(), pmm.maxBlocks, before, pmm.Used(), pmm.usedBlocks);
  }

  lemma TwoEntries(image: nat -> Region, first: Region, second: Region)
    requires image(0) == first && image(24) == second && first.size == second.size == 20
    ensures Entries(image, 0, 48) == [first, second]
    ensures Lengths([first, second]) == first.length + second.length
    ensures Drift([first, second]) == first.Drift() + second.Drift()
    ensures forall f, i :: Status([first, second], f, i)
                        == if second.Covers(f) then second.kind != AVAILABLE else Status([first], f, i)
  {
    assert Entries(image, 48, 48) == [] && Entries(image, 24, 48) == [second] + [];
    assert [first, second][1..] == [second] && [second][1..] == [];
    assert Lengths([second]) == second.length + Lengths([]);
    assert [first] + [second] == [first, second] && [] + [first] == [first];
    Allocator.Extend([], first);
    Allocator.Extend([first], second);
  }
}
