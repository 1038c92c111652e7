/** The part of the memory manager that builds page tables: mapPage and initVMM, on top of the page
    allocator. Every store goes where the address space in force takes it, or faults. */
module VirtualMemory {
  import opened Machine
  import opened Bitmap
  import opened FrameAllocator
  import opened Paging
  import opened PageMapping
  import opened BootTables

  /** Frames the allocator can still give out one by one. */
  ghost function FreeBelow(used: set<nat>, limit: nat): set<nat> {
    set f: nat | f < limit && f !in used
  }

  ghost predicate FirstFree(used: set<nat>, limit: nat, f: nat) {
    f < limit && f !in used && forall c: nat :: c < f ==> c in used
  }

  /** For single frames the run search is a search for a free frame. */
  lemma SingleFrame(used: set<nat>, frames: nat, b: nat)
    ensures Interval(b, 1) == {b}
    ensures Fits(used, frames, b, 1) <==> b < frames && b !in used
  {
    assert Interval(b, 1) == {b};
  }

  lemma SingleReadable(used: set<nat>, frames: nat, limit: nat)
    requires limit <= frames
    ensures Readable(used, frames, limit, 1)
  {
  }

  lemma SingleFirst(used: set<nat>, frames: nat, limit: nat, f: nat)
    requires limit <= frames && FirstStart(used, frames, limit, 1, f)
    ensures FirstFree(used, limit, f)
  {
    SingleFrame(used, frames, f);
    forall c: nat | c < f
      ensures c in used
    {
      SingleFrame(used, frames, c);
    }
  }

  lemma SingleGranted(used: set<nat>, frames: nat, limit: nat, free: u32)
    requires limit <= frames && free > 0 && |FreeBelow(used, limit)| > 0
    ensures !Refused(used, frames, limit, free, 1)
  {
    var b :| b in FreeBelow(used, limit);
    SingleFrame(used, frames, b);
  }

  lemma TakeFree(used: set<nat>, limit: nat, f: nat)
    requires FirstFree(used, limit, f)
    ensures FreeBelow(used + {f}, limit) == FreeBelow(used, limit) - {f}
    ensures |FreeBelow(used + {f}, limit)| == |FreeBelow(used, limit)| - 1
  {
    assert FreeBelow(used + {f}, limit) == FreeBelow(used, limit) - {f};
  }

  lemma CountDown(maxBlocks: u32, usedBlocks: u32)
    requires Wrap(maxBlocks - usedBlocks) > 0
    ensures Wrap(maxBlocks - Wrap(usedBlocks + 1)) == Wrap(maxBlocks - usedBlocks) - 1
  {
  }

  /** What granting one frame does to the set of free frames and to the counter. */
  lemma AfterGrant(used: set<nat>, frames: nat, limit: nat, maxBlocks: u32, count: u32, f: nat)
    requires limit <= frames && FirstStart(used, frames, limit, 1, f) && Wrap(maxBlocks - count) > 0
    ensures FirstFree(used, limit, f) && Interval(f, 1) == {f}
    ensures |FreeBelow(used + Interval(f, 1), limit)| == |FreeBelow(used, limit)| - 1
    ensures Wrap(maxBlocks - Wrap(count + 1)) == Wrap(maxBlocks - count) - 1
  {
    SingleFirst(used, frames, limit, f);
    SingleFrame(used, frames, f);
    TakeFree(used, limit, f);
    CountDown(maxBlocks, count);
  }

  /** Frame x and every frame below it are used, so a frame granted later lies above it. */
  ghost predicate Settled(used: set<nat>, x: nat) {
    forall c: nat :: c <= x ==> c in used
  }

  /** All tables of the directory, and the directory, are settled. */
  ghost predicate TablesSettled(ram: seq<Entry>, dir: Frame, used: set<nat>)
    requires Full(ram)
  {
    && Settled(used, dir)
    && forall i :: 0 <= i < 1024 && ram[Cell(dir, i)].present ==> Settled(used, ram[Cell(dir, i)].frame)
  }

  /** So a frame granted now lies above all tables. */
  lemma SettledBelow(ram: seq<Entry>, dir: Frame, used: set<nat>, limit: nat, f: nat)
    requires Full(ram) && TablesSettled(ram, dir, used) && f !in used
    ensures Below(ram, dir, f)
  {
    forall i | 0 <= i < 1024 && ram[Cell(dir, i)].present
      ensures ram[Cell(dir, i)].frame < f
    {
      assert Settled(used, ram[Cell(dir, i)].frame);
    }
  }

  /** The frames taken while the heap is being mapped: those mapped, the one in hand, the table
      once there is one, and no others, since all of these differ and the count leaves no room. */
  ghost predicate Taken(before: set<nat>, used: set<nat>, frames: seq<Frame>, p: Frame, table: Frame) {
    && before <= used && p in used && (frames != [] ==> table in used)
    && (forall i :: 0 <= i < |frames| ==> frames[i] in used)
    && |used| == |before| + 1 + (if frames == [] then 0 else |frames| + 1)
    && Separate(before, frames, p, table)
  }

  /** All of them differ, and none was taken before. */
  ghost predicate Separate(before: set<nat>, frames: seq<Frame>, p: Frame, table: Frame) {
    && (forall i, j :: 0 <= i < j < |frames| ==> frames[i] != frames[j])
    && (forall i :: 0 <= i < |frames| ==> frames[i] !in before && frames[i] != p)
    && p !in before
    && (if frames == [] then table == 0 else table !in before && table != p && table !in frames)
  }

  /** The tables while the heap is being mapped: the heap's own, and those of `base`. */
  ghost predicate HeapTables(base: seq<Entry>, ram: seq<Entry>, dir: Frame, frames: seq<Frame>, table: Frame)
    requires Full(base) && Full(ram) && |frames| <= HEAP_PAGES
  {
    && Sound(ram, dir) && HeapMapped(base, ram, dir, frames)
    && (forall i :: 0 <= i < 1024 && i != 769 ==> ram[Cell(dir, i)] == base[Cell(dir, i)])
    && (if frames == [] then ram == base else ram[Cell(dir, 769)] == Entry(true, true, table) && table < 1023)
    && (frames != [] ==> HeapEntries(base, ram, dir, frames, table))
  }

  /** The entries of the heap's table, all writable; the frames below it but the directory are as in
      `base`. */
  ghost predicate HeapEntries(base: seq<Entry>, ram: seq<Entry>, dir: Frame, frames: seq<Frame>, table: Frame)
    requires Full(base) && Full(ram) && |frames| <= HEAP_PAGES
  {
    && (forall i :: 0 <= i < |frames| ==> ram[Cell(table, i)] == Entry(true, true, frames[i]))
    && (forall g: Frame, i :: 0 <= i < 1024 && g < table && g != dir ==> ram[Cell(g, i)] == base[Cell(g, i)])
  }

  lemma HeapEntriesNext(base: seq<Entry>, ram: seq<Entry>, dir: Frame, frames: seq<Frame>, table: Frame, p: Frame,
                        virt: u32)
    requires Full(base) && Full(ram) && |frames| < HEAP_PAGES && virt == HEAP + 0x1000 * |frames|
    requires HeapEntries(base, ram, dir, frames, table)
    ensures HeapEntries(base, ram[Cell(table, TableIndex(virt)) := Entry(true, true, p)], dir, frames + [p], table)
  {
    assert TableIndex(virt) == |frames|;
  }

  lemma TakenOne(before: set<nat>, used: set<nat>, p: Frame)
    requires Taken(before, used, [], p, 0)
    ensures used == before + {p}
  {
    assert |used - (before + {p})| == 0;
  }

  lemma TakenFirst(before: set<nat>, used: set<nat>, p: Frame, table: Frame, q: Frame)
    requires Taken(before, used, [], p, 0) && table !in used && q !in used + {table}
    ensures Taken(before, used + {table} + {q}, [p], q, table)
  {
  }

  lemma TakenNext(before: set<nat>, used: set<nat>, frames: seq<Frame>, p: Frame, table: Frame, q: Frame)
    requires Taken(before, used, frames, p, table) && frames != [] && q !in used
    ensures Taken(before, used + {q}, frames + [p], q, table)
  {
  }

  // ----- The finished address space

  /** The tables are sound and lie in the frames taken, inside the window, or in frame 0. The kernel
      window leads to the bottom of memory, so the kernel finds them; the heap pages lead to their
      frames, and no other page of a non-zero directory slot leads anywhere. Slot 0 is empty too,
      unless the directory's frame held a set flag that neither memset reached. */
  ghost predicate Booted(before: seq<Entry>, ram: seq<Entry>, t: Frame, dir: Frame, frames: seq<Frame>, table: Frame)
    requires Full(before) && Full(ram) && |frames| == HEAP_PAGES
  {
    && t < 1023 && dir < 1023 && table < 1023
    && Ready(ram, dir, {0, t, dir, table}) && Window(ram, dir)
    && (forall v: u32 :: HEAP <= v < HEAP + 0x10_0000 ==> Walk(ram, dir, v) == Some(frames[(v - HEAP) / 0x1000]))
    && (forall v: u32 :: DirectoryIndex(v) != 0 && !(KERNEL <= v < HEAP + 0x10_0000) ==> Walk(ram, dir, v) == None)
    && (ram[Cell(dir, 0)].present <==> dir != t + 1 && before[Cell(dir, 0)].present)
    && BootEntries(ram, t, dir, frames, table)
  }

  /** All entries but slot 0 of the directory, present and writable where there are any. */
  ghost predicate BootEntries(ram: seq<Entry>, t: Frame, dir: Frame, frames: seq<Frame>, table: Frame)
    requires Full(ram) && |frames| == HEAP_PAGES
  {
    && (forall i :: 0 < i < 1024 ==>
          ram[Cell(dir, i)] == if i == 768 then Entry(true, true, t) else if i == 769 then Entry(true, true, table)
                               else Entry(false, false, 0))
    && (forall i :: 0 <= i < 1024 ==> ram[Cell(t, i)] == Entry(true, true, i))
    && (forall i :: 0 <= i < 256 ==> ram[Cell(table, i)] == Entry(true, true, frames[i]))
  }

  lemma BootedAfter(before: seq<Entry>, ram: seq<Entry>, t: Frame, dir: Frame, frames: seq<Frame>, table: Frame)
    requires Full(before) && Full(ram) && |frames| == HEAP_PAGES && 0 < t < dir < 1023 && t < table
    requires HeapTables(Directory(before, t, dir), ram, dir, frames, table)
    ensures Booted(before, ram, t, dir, frames, table)
  {
    DirectoryWalks(before, t, dir);
    DirectoryCells(before, t, dir, 0);
    forall i | 0 <= i < 1024
      ensures ram[Cell(dir, i)].present ==> ram[Cell(dir, i)].frame in {0, t, dir, table}
    {
      DirectoryCells(before, t, dir, i);
    }
    BootEntriesAfter(before, ram, t, dir, frames, table);
    HeapWindow(Directory(before, t, dir), ram, dir, frames);
    forall f: Frame | f in {0, t, dir, table}
      ensures Reached(ram, dir, f)
    {
      WindowReaches(ram, dir, f);
    }
  }

  lemma BootEntriesAfter(before: seq<Entry>, ram: seq<Entry>, t: Frame, dir: Frame, frames: seq<Frame>, table: Frame)
    requires Full(before) && Full(ram) && |frames| == HEAP_PAGES && t < dir && t < table
    requires HeapTables(Directory(before, t, dir), ram, dir, frames, table)
    ensures BootEntries(ram, t, dir, frames, table)
  {
    forall i | 0 <= i < 1024
      ensures ram[Cell(t, i)] == Entry(true, true, i)
      ensures 0 < i ==>
                ram[Cell(dir, i)] == if i == 768 then Entry(true, true, t)
                                     else if i == 769 then Entry(true, true, table) else Entry(false, false, 0)
    {
      DirectoryCells(before, t, dir, i);
    }
  }

  /** The heap pages leave the window mapped. */
  lemma HeapWindow(base: seq<Entry>, ram: seq<Entry>, dir: Frame, frames: seq<Frame>)
    requires Full(base) && Full(ram) && |frames| <= HEAP_PAGES && HeapMapped(base, ram, dir, frames)
    requires Window(base, dir)
    ensures Window(ram, dir)
  {
  }

  /** Whether the heap's slot has a table yet. */
  lemma HeapSlot(base: seq<Entry>, ram: seq<Entry>, dir: Frame, frames: seq<Frame>, table: Frame, virt: u32)
    requires Full(base) && Full(ram) && |frames| < HEAP_PAGES && virt == HEAP + 0x1000 * |frames|
    requires HeapTables(base, ram, dir, frames, table) && !HasTable(base, dir, HEAP) && Window(base, dir) && dir < 1024
    ensures Reached(ram, dir, dir)
    ensures DirectoryIndex(virt) == DirectoryIndex(HEAP) == 769 && (HasTable(ram, dir, virt) <==> frames != [])
  {
    HeapWindow(base, ram, dir, frames);
    WindowReaches(ram, dir, dir);
  }

  /** What the first turn of the heap loop does to the tables, and each later one. */
  lemma FirstTurn(base: seq<Entry>, dir: Frame, p: Frame, f: Frame)
    requires Full(base) && dir < 1024 && Sound(base, dir) && Window(base, dir)
    requires Below(base, dir, f) && !HasTable(base, dir, HEAP)
    requires forall v: u32 :: DirectoryIndex(v) != 768 && DirectoryIndex(v) != 0 ==> Walk(base, dir, v) == None
    ensures var r := PageMapping.MapPage(Written, base, dir, f, 0x1000 * p, HEAP);
      && (f < 1023 ==> r.Some? && HeapTables(base, r.value, dir, [p], f))
      && (1023 <= f < 0x4_0000 ==> r.None?)
  {
    if f < 1023 {
      FirstHeapPage(base, dir, f, 0x1000 * p);
      HeapMappedNext(base, base, PageMapping.MapPage(Written, base, dir, f, 0x1000 * p, HEAP).value, dir, [], p);
      assert [] + [p] == [p];
    } else if f < 0x4_0000 {
      FirstHeapFaults(base, dir, f, 0x1000 * p);
    }
  }

  lemma NextTurn(base: seq<Entry>, ram: seq<Entry>, dir: Frame, frames: seq<Frame>, p: Frame, f: Frame, table: Frame,
                 virt: u32)
    requires Full(base) && Full(ram) && 0 < |frames| < HEAP_PAGES && virt == HEAP + 0x1000 * |frames|
    requires dir < 1024 && Window(base, dir) && HeapTables(base, ram, dir, frames, table)
    ensures var r := PageMapping.MapPage(Written, ram, dir, f, 0x1000 * p, virt);
      r.Some? && HeapTables(base, r.value, dir, frames + [p], table)
  {
    HeapWindow(base, ram, dir, frames);
    NextHeapPage(ram, dir, f, table, 0x1000 * p, virt);
    HeapEntriesNext(base, ram, dir, frames, table, p, virt);
    HeapMappedNext(base, ram, PageMapping.MapPage(Written, ram, dir, f, 0x1000 * p, virt).value, dir, frames, p);
  }

  lemma EachTurn(base: seq<Entry>, ram: seq<Entry>, dir: Frame, frames: seq<Frame>, p: Frame, f: Frame, table: Frame,
                 virt: u32)
    requires Full(base) && Full(ram) && |frames| < HEAP_PAGES && virt == HEAP + 0x1000 * |frames|
    requires dir < 1024 && Sound(base, dir) && Window(base, dir) && !HasTable(base, dir, HEAP)
    requires HeapTables(base, ram, dir, frames, table) && (frames == [] ==> Below(base, dir, f))
    requires forall v: u32 :: DirectoryIndex(v) != 768 && DirectoryIndex(v) != 0 ==> Walk(base, dir, v) == None
    ensures var (r, t) := (PageMapping.MapPage(Written, ram, dir, f, 0x1000 * p, virt),
                           if frames == [] then f else table);
      && (t < 1023 ==> r.Some? && HeapTables(base, r.value, dir, frames + [p], t))
      && (frames != [] ==> t < 1023)
      && (1023 <= t < 0x4_0000 ==> r.None?)
  {
    if frames == [] {
      FirstTurn(base, dir, p, f);
      assert frames + [p] == [p];
    } else {
      NextTurn(base, ram, dir, frames, p, f, table, virt);
    }
  }

  /** The directory is ready for the heap: sound, settled, with nothing in the heap's slot. */
  lemma DirectoryReady(before: seq<Entry>, used: set<nat>, limit: nat, t: Frame, dir: Frame)
    requires Full(before) && Settled(used, 511)
    requires FirstFree(used, limit, t) && FirstFree(used + {t}, limit, dir)
    ensures 0 < t < dir
    ensures var base := Directory(before, t, dir);
      && Sound(base, dir) && Window(base, dir)
      && TablesSettled(base, dir, used + {t} + {dir}) && !HasTable(base, dir, HEAP)
  {
    DirectoryWalks(before, t, dir);
    var base := Directory(before, t, dir);
    forall i | 0 <= i < 1024
      ensures base[Cell(dir, i)].present ==> i != 769 && Settled(used + {t} + {dir}, base[Cell(dir, i)].frame)
    {
      DirectoryCells(before, t, dir, i);
    }
  }

  /** The first free frame lies below 1023 exactly if one is free there, and then takes one away. */
  lemma LowFrame(used: set<nat>, limit: nat, f: nat)
    requires FirstFree(used, limit, f)
    ensures f < 1023 <==> |FreeBelow(used, 1023)| > 0
    ensures f < 1023 ==> |FreeBelow(used + {f}, 1023)| == |FreeBelow(used, 1023)| - 1
  {
    if f < 1023 {
      assert f in FreeBelow(used, 1023);
      assert FreeBelow(used + {f}, 1023) == FreeBelow(used, 1023) - {f};
    } else if b :| b in FreeBelow(used, 1023) {
      assert false;
    }
  }

  /** Of the frames taken in turn, the first, second and fourth are stored to, so four free frames
      below 1023 are needed. */
  lemma FourLow(used: set<nat>, limit: nat, t: nat, dir: nat, p: nat, table: nat)
    requires FirstFree(used, limit, t) && FirstFree(used + {t}, limit, dir)
    requires FirstFree(used + {t} + {dir}, limit, p) && FirstFree(used + {t} + {dir} + {p}, limit, table)
    ensures t < dir < p < table
    ensures table < 1023 <==> |FreeBelow(used, 1023)| >= 4
  {
    LowFrame(used, limit, t);
    LowFrame(used + {t}, limit, dir);
    LowFrame(used + {t} + {dir}, limit, p);
    LowFrame(used + {t} + {dir} + {p}, limit, table);
  }

  lemma LeafStored(before: seq<Entry>, ram: seq<Entry>, dir: Frame, f: Frame, phys: u32, virt: u32)
    requires Full(before) && Full(ram) && Found(before, dir, f, virt)
    requires PageMapping.MapPage(Written, before, dir, f, phys, virt) == Some(ram)
    ensures var slot := ram[Cell(dir, DirectoryIndex(virt))];
      && slot.present && ram[Cell(slot.frame, TableIndex(virt))] == Entry(true, true, phys / 0x1000)
      && if HasTable(before, dir, virt)
         then ram == before[Cell(slot.frame, TableIndex(virt)) := Entry(true, true, phys / 0x1000)]
         else slot == Entry(true, true, f)
  {
    MapPageStores(Written, before, dir, f, phys, virt);
  }

  class MemoryManager {
    const pmm: Allocator
    const ram: array<Entry>
    /** The address space in force, which cr3 names. */
    var root: Root
    var currentPageDirectory: Frame

    constructor (pmm: Allocator, ram: array<Entry>)
      ensures this.pmm == pmm && this.ram == ram && root == Boot
    {
      this.pmm, this.ram := pmm, ram;
      root, currentPageDirectory := Boot, 0;
    }

    ghost predicate Valid() {
      pmm.Valid() && ram.Length == 0x4000_0000 && (ram as object) != pmm.memoryMap && (ram as object) != pmm
    }

    ghost function FreeFrames(): set<nat>
      reads pmm.memoryMap
    {
      FreeBelow(pmm.Used(), pmm.Limit())
    }

    /** The next n single-frame allocations will succeed. */
    ghost predicate Plenty(n: nat)
      reads pmm, pmm.memoryMap
    {
      |FreeFrames()| >= n && pmm.GetFreeBlockCount() >= n
    }

    /** getFreePhysicalPage() for one page, as a frame number; 0 stands for failure too. With
        plenty of frames it is the first free one. */
    method GetFrame(ghost n: nat) returns (f: Frame)
      requires Valid()
      modifies pmm`usedBlocks, pmm.memoryMap
      ensures f < pmm.Limit() || f == 0
      ensures n > 0 && old(Plenty(n)) ==>
                && FirstFree(old(pmm.Used()), pmm.Limit(), f)
                && pmm.Used() == old(pmm.Used()) + {f}
                && Plenty(n - 1)
    {
      ghost var used, count := pmm.Used(), pmm.usedBlocks;
      SingleReadable(used, pmm.Size(), pmm.Limit());
      if n > 0 && Plenty(n) {
        SingleGranted(used, pmm.Size(), pmm.Limit(), pmm.GetFreeBlockCount());
      }
      var address := pmm.GetFreePhysicalPage(1);
      f := address / 4096;
      if n > 0 && old(Plenty(n)) {
        AfterGrant(used, pmm.Size(), pmm.Limit(), pmm.maxBlocks, count, f);
      }
    }

    /** Where the processor finds the page: the walk of the tables, entry by entry. */
    method Find(page: u32) returns (g: Option<Frame>)
      requires Valid()
      ensures g == Translate(ram[..], root, page)
    {
      match root
      case Boot => g := if KERNEL <= page < HEAP then Some((page - KERNEL) / 0x1000) else None;
      case Tables(dir) =>
        g := None;
        var table := ram[Cell(dir, DirectoryIndex(page))];
        if table.present {
          var leaf := ram[Cell(table.frame, TableIndex(page))];
          if leaf.present {
            g := Some(leaf.frame);
          }
        }
    }

    /** One store; false for a page fault. */
    method Store(page: u32, i: nat, e: Entry) returns (up: bool)
      requires Valid() && i < 1024
      modifies ram
      ensures up <==> Put(old(ram[..]), root, page, i, e).Some?
      ensures up ==> Put(old(ram[..]), root, page, i, e) == Some(ram[..])
    {
      ghost var before := ram[..];
      var g := Find(page);
      if g.None? {
        return false;
      }
      ram[Cell(g.value, i)] := e;
      assert ram[..] == before[Cell(g.value, i) := e];
      up := true;
    }

    /** memset(table, 0, 4096) through a byte pointer, which writes the bytes numbered 4096 down
        to 1: the first of these is the low byte of the word after the page. */
    method ClearPage(f: Frame) returns (up: bool)
      requires Valid()
      modifies ram
      ensures up <==> Memset(Written, old(ram[..]), root, f).Some?
      ensures up ==> Memset(Written, old(ram[..]), root, f) == Some(ram[..])
    {
      ghost var before := ram[..];
      var h := Find(Phys2Virt(f + 1));
      if h.None? {
        return false;
      }
      ram[Cell(h.value, 0)] := ram[Cell(h.value, 0)].(present := false, write := false);
      assert ram[..] == Spilled(before, h.value);
      up := WipePage(f);
    }

    /** The stores of memset that fall on the page itself. */
    method WipePage(f: Frame) returns (up: bool)
      requires Valid()
      modifies ram
      ensures up <==> Wipe(Written, old(ram[..]), root, f).Some?
      ensures up ==> Wipe(Written, old(ram[..]), root, f) == Some(ram[..])
    {
      ghost var before := ram[..];
      var page := Phys2Virt(f);
      var i := 1024;
      while i > 1
        invariant 1 <= i <= 1024
        invariant Scrub(before, root, page, 1024, 1) == Scrub(ram[..], root, page, i, 1)
      {
        ghost var now := ram[..];
        var stored := Store(page, i - 1, ZERO);
        if !stored {
          return false;
        }
        assert Scrub(now, root, page, i, 1) == Scrub(ram[..], root, page, i - 1, 1);
        i := i - 1;
      }
      ghost var scrubbed := ram[..];
      assert Scrub(before, root, page, 1024, 1) == Some(scrubbed);
      var g := Find(page);
      if g.None? {
        return false;
      }
      ram[Cell(g.value, 0)] := ram[Cell(g.value, 0)].(frame := 0);
      assert ram[..] == scrubbed[Cell(g.value, 0) := scrubbed[Cell(g.value, 0)].(frame := 0)];
      up := true;
    }

    /** The directory entry for a new table at frame f, and the leaf in the table that it names. */
    method EnterTable(f: Frame, phys: u32, virt: u32) returns (up: bool)
      requires Valid() && root == Tables(currentPageDirectory)
      modifies ram
      ensures up <==> Enter(old(ram[..]), currentPageDirectory, f, phys, virt).Some?
      ensures up ==> Enter(old(ram[..]), currentPageDirectory, f, phys, virt) == Some(ram[..])
    {
      up := Store(Phys2Virt(currentPageDirectory), DirectoryIndex(virt), Entry(true, true, f));
      if !up {
        return;
      }
      var g := Find(Phys2Virt(currentPageDirectory));
      if g.None? {
        return false;
      }
      var table := ram[Cell(g.value, DirectoryIndex(virt))].frame;
      up := Store(Phys2Virt(table), TableIndex(virt), Entry(true, true, phys / 0x1000));
    }

    /** A table fetched, cleared and entered, with the leaf in it. */
    method MakeTable(phys: u32, virt: u32, ghost n: nat) returns (up: bool, ghost f: Frame)
      requires Valid() && root == Tables(currentPageDirectory)
      modifies ram, pmm`usedBlocks, pmm.memoryMap
      ensures up <==> AddTable(Written, old(ram[..]), currentPageDirectory, f, phys, virt).Some?
      ensures up ==> AddTable(Written, old(ram[..]), currentPageDirectory, f, phys, virt) == Some(ram[..])
      ensures n > 0 && old(Plenty(n)) ==>
                FirstFree(old(pmm.Used()), pmm.Limit(), f) && pmm.Used() == old(pmm.Used()) + {f} && Plenty(n - 1)
    {
      var table := GetFrame(n);
      f := table;
      up := ClearPage(table);
      if up {
        up := EnterTable(table, phys, virt);
      }
    }

    /** Maps the page of virt to phys, with a new table when there is none; false for a page fault.
        f is the frame that the allocator granted for a table. */
    method MapPage(phys: u32, virt: u32, ghost n: nat) returns (up: bool, ghost f: Frame)
      requires Valid() && root == Tables(currentPageDirectory)
      modifies ram, pmm`usedBlocks, pmm.memoryMap
      ensures up <==> PageMapping.MapPage(Written, old(ram[..]), currentPageDirectory, f, phys, virt).Some?
      ensures up ==> PageMapping.MapPage(Written, old(ram[..]), currentPageDirectory, f, phys, virt) == Some(ram[..])
      ensures up && old(Found(ram[..], currentPageDirectory, f, virt)) ==>
                var slot := ram[Cell(currentPageDirectory, DirectoryIndex(virt))];
                && slot.present && ram[Cell(slot.frame, TableIndex(virt))] == Entry(true, true, phys / 0x1000)
                && if old(HasTable(ram[..], currentPageDirectory, virt))
                   then ram[..] == old(ram[..])[Cell(slot.frame, TableIndex(virt)) := Entry(true, true, phys / 0x1000)]
                   else slot == Entry(true, true, f)
      ensures old(Reached(ram[..], currentPageDirectory, currentPageDirectory)
                  && HasTable(ram[..], currentPageDirectory, virt)) ==>
                pmm.Used() == old(pmm.Used()) && pmm.usedBlocks == old(pmm.usedBlocks)
      ensures old(Reached(ram[..], currentPageDirectory, currentPageDirectory)
                  && !HasTable(ram[..], currentPageDirectory, virt)) && n > 0 && old(Plenty(n)) ==>
                FirstFree(old(pmm.Used()), pmm.Limit(), f) && pmm.Used() == old(pmm.Used()) + {f} && Plenty(n - 1)
    {
      f := 0;
      ghost var before := ram[..];
      var g := Find(Phys2Virt(currentPageDirectory));
      if g.None? {
        return false, f;
      }
      var entry := ram[Cell(g.value, DirectoryIndex(virt))];
      if entry.present {
        up := Store(Phys2Virt(entry.frame), TableIndex(virt), Entry(true, true, phys / 0x1000));
      } else {
        up, f := MakeTable(phys, virt, n);
      }
      if up && Found(before, currentPageDirectory, f, virt) {
        LeafStored(before, ram[..], currentPageDirectory, f, phys, virt);
      }
    }

    /** The loop of initVMM that maps the kernel window. */
    method FillIdentity(table: Frame)
      requires Valid() && root == Boot && table < 1024
      modifies ram
      ensures ram[..] == Identity(old(ram[..]), table)
    {
      ghost var before := ram[..];
      for i := 0 to 1024
        invariant forall c :: 0 <= c < ram.Length ==>
                    ram[c] == if 1024 * table <= c < 1024 * table + i then Entry(true, true, c % 1024) else before[c]
      {
        var virtualAddress := KERNEL + 0x1000 * i;
        assert TableIndex(virtualAddress) == i;
        BootTranslate(ram[..], table);
        ghost var now := ram[..];
        var stored := Store(Phys2Virt(table), TableIndex(virtualAddress), Entry(true, true, i));
        assert ram[..] == now[Cell(table, i) := Entry(true, true, i)];
      }
    }

    /** The first part of initVMM: the directory, with one table that maps the kernel window. It
        faults exactly when one of the two frames is not below the last frame of the window. */
    method BuildDirectory(ghost n: nat) returns (up: bool, ghost t: Frame, ghost d: Frame)
      requires Valid() && root == Boot
      modifies this, ram, pmm`usedBlocks, pmm.memoryMap
      ensures up <==> t < 1023 && d < 1023
      ensures up ==> ram[..] == Directory(old(ram[..]), t, d) && root == Tables(d) && currentPageDirectory == d
      ensures n >= 2 && old(Plenty(n)) ==>
                && FirstFree(old(pmm.Used()), pmm.Limit(), t)
                && (t < 1023 ==> FirstFree(old(pmm.Used()) + {t}, pmm.Limit(), d))
                && (up ==> pmm.Used() == old(pmm.Used()) + {t} + {d} && Plenty(n - 2))
    {
      var table;
      up, table := NewTable(n);
      t, d := table, 0;
      if !up {
        return;
      }
      var dir;
      up, dir := NewTable(if n > 0 then n - 1 else 0);
      d := dir;
      if !up {
        return;
      }
      FillDirectory(table, dir);
      currentPageDirectory := dir;
      root := Tables(dir);
    }

    /** A frame fetched and cleared in the boot address space. */
    method NewTable(ghost n: nat) returns (up: bool, f: Frame)
      requires Valid() && root == Boot
      modifies ram, pmm`usedBlocks, pmm.memoryMap
      ensures up <==> f < 1023
      ensures up ==> ram[..] == Cleared(old(ram[..]), f)
      ensures n > 0 && old(Plenty(n)) ==>
                FirstFree(old(pmm.Used()), pmm.Limit(), f) && pmm.Used() == old(pmm.Used()) + {f} && Plenty(n - 1)
    {
      f := GetFrame(n);
      BootMemset(ram[..], f);
      up := ClearPage(f);
    }

    /** The stores into the first table and the new directory. */
    method FillDirectory(table: Frame, dir: Frame)
      requires Valid() && root == Boot && table < 1024 && dir < 1024
      modifies ram
      ensures ram[..] == Identity(old(ram[..]), table)[Cell(dir, 768) := Entry(true, true, table)]
    {
      FillIdentity(table);
      BootTranslate(ram[..], dir);
      var stored := Store(Phys2Virt(dir), DirectoryIndex(KERNEL), Entry(true, true, table));
    }

    /** The mapPage of one turn of the heap loop. */
    method MapOne(ghost base: seq<Entry>, ghost before: set<nat>, ghost frames: seq<Frame>, ghost table: Frame,
                  ghost n: nat, p: Frame, virt: u32, ghost ok: bool)
      returns (up: bool, ghost table': Frame, ghost n': nat)
      requires Valid() && root == Tables(currentPageDirectory)
      requires Full(base) && |frames| < HEAP_PAGES && virt == HEAP + 0x1000 * |frames|
      requires ok ==> n >= 1 && Plenty(n) && before <= pmm.Used()
      requires ok ==> HeapBase(base, before) && HeapTables(base, ram[..], currentPageDirectory, frames, table)
      modifies ram, pmm`usedBlocks, pmm.memoryMap
      ensures ok && (frames == [] ==> table' < 1023) ==>
                up && HeapTables(base, ram[..], currentPageDirectory, frames + [p], table')
      ensures ok && frames == [] && 1023 <= table' < 0x4_0000 ==> !up
      ensures ok ==> n' == n - (if frames == [] then 1 else 0) && Plenty(n')
      ensures ok && frames == [] ==>
                FirstFree(old(pmm.Used()), pmm.Limit(), table') && pmm.Used() == old(pmm.Used()) + {table'}
      ensures ok && frames != [] ==> table' == table && pmm.Used() == old(pmm.Used())
    {
      ghost var dir, ram0 := currentPageDirectory, ram[..];
      if ok {
        HeapSlot(base, ram0, dir, frames, table, virt);
      }
      ghost var f;
      up, f := MapPage(0x1000 * p, virt, n);
      table', n' := table, n;
      if ok {
        if frames == [] {
          table', n' := f, n - 1;
          SettledBelow(base, dir, before, pmm.Limit(), f);
        }
        EachTurn(base, ram0, dir, frames, p, f, table, virt);
      }
    }

    /** The allocation at the end of one turn, with the frames that were used at its start. */
    method Fetch(ghost before: set<nat>, ghost used: set<nat>, ghost n: nat, ghost frames: seq<Frame>,
                 ghost table: Frame, ghost p: Frame, ghost table': Frame, ghost ok: bool)
      returns (next: Frame)
      requires Valid()
      requires ok ==> n >= 1 && Plenty(n)
      requires ok ==> Taken(before, used, frames, p, table)
      requires ok && frames == [] ==> table == 0 && table' !in used && pmm.Used() == used + {table'}
      requires ok && frames != [] ==> table' == table && pmm.Used() == used
      modifies pmm`usedBlocks, pmm.memoryMap
      ensures ok ==> Plenty(n - 1) && Taken(before, pmm.Used(), frames + [p], next, table')
    {
      next := GetFrame(if ok then n else 0);
      if ok {
        if frames == [] {
          TakenFirst(before, used, p, table', next);
        } else {
          TakenNext(before, used, frames, p, table', next);
        }
      }
    }

    /** What the heap loop starts from: a directory inside the window, which it maps with nothing
        else but slot 0. */
    ghost predicate HeapBase(base: seq<Entry>, before: set<nat>)
      requires Full(base)
      reads this`currentPageDirectory
    {
      var dir := currentPageDirectory;
      && dir < 1023 && Sound(base, dir) && Window(base, dir)
      && TablesSettled(base, dir, before) && !HasTable(base, dir, HEAP)
      && forall v: u32 :: DirectoryIndex(v) != 768 && DirectoryIndex(v) != 0 ==> Walk(base, dir, v) == None
    }

    /** Where the heap loop stands after mapping `frames`, with p in hand: started from `base` and
        `before` with n allocations to go. */
    ghost predicate HeapLoop(base: seq<Entry>, before: set<nat>, n: nat, frames: seq<Frame>, table: Frame, p: Frame)
      requires Full(base) && |frames| <= HEAP_PAGES
      reads this, ram, pmm, pmm.memoryMap
    {
      && Valid() && HeapBase(base, before)
      && n >= 258 && Plenty(n - 1 - |frames| - if frames == [] then 0 else 1)
      && HeapTables(base, ram[..], currentPageDirectory, frames, table)
      && Taken(before, pmm.Used(), frames, p, table)
      && FirstFree(before, pmm.Limit(), if frames == [] then p else frames[0])
      && (frames != [] ==> FirstFree(before + {frames[0]}, pmm.Limit(), table))
    }

    /** One turn of the heap loop: map the frame in hand at virt and fetch the next one. Only the
        first can fault, when its table is not below the last frame of the window. */
    method Turn(ghost base: seq<Entry>, ghost before: set<nat>, ghost n: nat, ghost frames: seq<Frame>,
                ghost table: Frame, p: Frame, virt: u32, ghost ok: bool)
      returns (up: bool, next: Frame, ghost table': Frame)
      requires Valid() && root == Tables(currentPageDirectory)
      requires Full(base) && |frames| < HEAP_PAGES && virt == HEAP + 0x1000 * |frames|
      requires ok ==> HeapLoop(base, before, n, frames, table, p)
      modifies ram, pmm`usedBlocks, pmm.memoryMap
      ensures ok && frames == [] ==> FirstFree(before + {p}, pmm.Limit(), table')
      ensures ok && frames != [] ==> table' == table
      ensures ok && (frames == [] ==> table' < 1023) ==> up && HeapLoop(base, before, n, frames + [p], table', next)
      ensures ok && frames == [] && 1023 <= table' < 0x4_0000 ==> !up
    {
      ghost var used, left: nat := pmm.Used(), 0;
      if ok {
        left := n - 1 - |frames| - if frames == [] then 0 else 1;
        if frames == [] {
          TakenOne(before, used, p);
        }
      }
      next := p;
      up, table', left := MapOne(base, before, frames, table, left, p, virt, ok);
      if up {
        next := Fetch(before, used, left, frames, table, p, table', ok);
      }
    }

    /** The second part: the heap pages. The allocator is called once more than there are pages. The
        frame fetched first is `first`, and the next is for the table. */
    method MapHeap(ghost n: nat)
      returns (up: bool, ghost frames: seq<Frame>, ghost first: Frame, ghost table: Frame, ghost unmapped: Frame)
      requires Valid() && root == Tables(currentPageDirectory)
      modifies ram, pmm`usedBlocks, pmm.memoryMap
      ensures up ==> |frames| == HEAP_PAGES
      ensures n >= 258 && old(Plenty(n)) && old(HeapBase(ram[..], pmm.Used())) ==>
                && FirstFree(old(pmm.Used()), pmm.Limit(), first)
                && FirstFree(old(pmm.Used()) + {first}, pmm.Limit(), table)
                && (table < 1023 ==> up && HeapLoop(old(ram[..]), old(pmm.Used()), n, frames, table, unmapped))
                && (1023 <= table < 0x4_0000 ==> !up)
    {
      ghost var base, before := ram[..], pmm.Used();
      ghost var ok := n >= 258 && Plenty(n) && HeapBase(base, before);
      var p := GetFrame(if ok then n else 0);
      var virt: u32 := HEAP;
      up, frames, first, table, unmapped := true, [], p, 0, p;
      ghost var live := ok;
      while virt < HEAP + 0x10_0000
        invariant up && |frames| <= HEAP_PAGES && virt == HEAP + 0x1000 * |frames|
        invariant live ==> HeapLoop(base, before, n, frames, table, p)
        invariant ok && frames == [] ==> live && p == first && table == 0
        invariant ok && frames != [] ==>
                    FirstFree(before, pmm.Limit(), first) && FirstFree(before + {first}, pmm.Limit(), table)
        invariant ok && frames != [] ==> (table < 1023 ==> live) && !(1023 <= table < 0x4_0000)
      {
        ghost var mapped, table' := p, table;
        up, p, table' := Turn(base, before, n, frames, table, p, virt, live);
        if frames == [] {
          table := table';
          live := ok && table < 1023;
        }
        if !up {
          return;
        }
        frames := frames + [mapped];
        virt := virt + 0x1000;
      }
      unmapped := p;
    }

    /** What the heap loop starts from. */
    lemma BaseReady(before: seq<Entry>, used: set<nat>, t: Frame, d: Frame)
      requires Full(before) && Settled(used, 511) && t < 1023 && d < 1023 && d == currentPageDirectory
      requires FirstFree(used, pmm.Limit(), t) && FirstFree(used + {t}, pmm.Limit(), d)
      ensures 0 < t < d && HeapBase(Directory(before, t, d), used + {t} + {d})
    {
      DirectoryReady(before, used, pmm.Limit(), t, d);
      DirectoryWalks(before, t, d);
    }

    /** What the start leaves when the heap loop is done. */
    lemma Finished(before: seq<Entry>, used: set<nat>, taken: set<nat>, t: Frame, d: Frame, frames: seq<Frame>,
                   table: Frame, unmapped: Frame)
      requires Full(before) && ram.Length == 0x4000_0000 && |frames| == HEAP_PAGES && d == currentPageDirectory
      requires 0 < t < d < 1023 && t < table && t !in used && d !in used + {t} && taken == used + {t} + {d}
      requires HeapLoop(Directory(before, t, d), taken, 258, frames, table, unmapped)
      ensures Booted(before, ram[..], t, d, frames, table)
      ensures used + {t, d, table} <= pmm.Used() && |pmm.Used()| == |used| + 260
      ensures Separate(used + {t, d}, frames, unmapped, table)
    {
      BootedAfter(before, ram[..], t, d, frames, table);
      assert taken == used + {t, d};
    }

    /** Sets up paging; false for a page fault on the way. When 260 single-frame allocations can
        succeed, it comes up exactly if four of the free frames lie below 1023, in a machine with at
        most 1 GB; then it takes exactly 260 frames and leaves the kernel window and the heap
        mapped. See Booted for the rest. */
    method InitVMM()
      returns (up: bool, ghost t: Frame, ghost table: Frame, ghost frames: seq<Frame>, ghost unmapped: Frame)
      requires Valid() && root == Boot && Settled(pmm.Used(), 511)
      modifies this, ram, pmm`usedBlocks, pmm.memoryMap
      ensures up ==> |frames| == HEAP_PAGES
      ensures old(Plenty(260)) && old(|FreeBelow(pmm.Used(), 1023)|) >= 4 ==>
                && up && root == Tables(currentPageDirectory)
                && Booted(old(ram[..]), ram[..], t, currentPageDirectory, frames, table)
                && old(pmm.Used()) + {t, currentPageDirectory, table} <= pmm.Used()
                && |pmm.Used()| == |old(pmm.Used())| + 260
                && Separate(old(pmm.Used()) + {t, currentPageDirectory}, frames, unmapped, table)
                && t != currentPageDirectory && t !in old(pmm.Used()) && currentPageDirectory !in old(pmm.Used())
      ensures old(Plenty(260)) && old(|FreeBelow(pmm.Used(), 1023)|) < 4 && pmm.Limit() <= 0x4_0000 ==> !up
    {
      ghost var before, used, ok, limit := ram[..], pmm.Used(), Plenty(260), pmm.Limit();
      ghost var d;
      frames, table, unmapped := [], 0, 0;
      up, t, d := BuildDirectory(260);
      if ok {
        LowFrame(used, limit, t);
        if t < 1023 {
          LowFrame(used + {t}, limit, d);
        }
      }
      if !up {
        return;
      }
      ghost var base, taken := ram[..], pmm.Used();
      if ok {
        BaseReady(before, used, t, d);
      }
      ghost var first;
      up, frames, first, table, unmapped := MapHeap(258);
      if ok {
        FourLow(used, limit, t, d, first, table);
        if table < 1023 {
          Finished(before, used, taken, t, d, frames, table, unmapped);
        }
      }
    }
  }

  // ----- When the window is full

  /** Behind the window the kernel finds these frames. */
  ghost predicate FoundBehind(ram: seq<Entry>, dir: Frame, frames: seq<Frame>)
    requires Full(ram) && |frames| <= HEAP_PAGES
  {
    forall k {:trigger frames[k]} :: 0 <= k < |frames| ==> Walk(ram, dir, Phys2Virt(1024 + k)) == Some(frames[k])
  }

  /** After the start these are the heap pages, while the directory and the tables are found. */
  lemma BootedBehind(before: seq<Entry>, ram: seq<Entry>, t: Frame, dir: Frame, frames: seq<Frame>, table: Frame)
    requires Full(before) && Full(ram) && |frames| == HEAP_PAGES && Booted(before, ram, t, dir, frames, table)
    ensures FoundBehind(ram, dir, frames) && Ready(ram, dir, {0, t, dir, table})
  {
    forall k | 0 <= k < |frames|
      ensures Walk(ram, dir, Phys2Virt(1024 + k)) == Some(frames[k])
    {
      var v := Phys2Virt(1024 + k);
      assert v == HEAP + 0x1000 * k && (v - HEAP) / 0x1000 == k;
    }
  }

  /** So once no frame below 1024 is free and the next table is granted behind the window, memset and
      the leaf go into heap pages, and the page asked for stays unmapped. */
  lemma HeapPageHit(ram: seq<Entry>, dir: Frame, tables: set<nat>, frames: seq<Frame>, k: nat, f: Frame, phys: u32,
                    virt: u32)
    requires Full(ram) && Ready(ram, dir, tables) && |frames| <= HEAP_PAGES && FoundBehind(ram, dir, frames)
    requires forall i :: 0 <= i < |frames| ==> frames[i] !in tables && frames[i] != f
    requires k + 1 < |frames| && f == 1024 + k && f !in tables
    requires !HasTable(ram, dir, virt) && !ram[Cell(f, TableIndex(virt))].present
    ensures Walk(ram, dir, Phys2Virt(f)) == Some(frames[k])
    ensures var r := MapPage(Written, ram, dir, f, phys, virt);
      && r.Some? && r.value[Cell(frames[k], TableIndex(virt))] == Entry(true, true, phys / 0x1000)
      && Walk(r.value, dir, virt) == None
  {
    var g, h := frames[k], frames[k + 1];
    OwnedFresh(ram, dir, tables, f);
    OwnedFresh(ram, dir, tables, g);
    OwnedFresh(ram, dir, tables, h);
    assert Reached(ram, dir, dir);
    Misdirected(ram, dir, f, g, h, phys, virt);
  }
}
