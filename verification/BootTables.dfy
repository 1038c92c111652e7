/** The tables initVMM builds, as values: the kernel's directory, and the heap pages mapped on
    top of it. */
module BootTables {
  import opened Machine
  import opened Paging
  import opened PageMapping

  const HEAP_PAGES: nat := 256

  // ----- The first two tables, in the boot address space

  /** Cell c after memset as written on the page of frame f: the low byte of the page's first entry
      survives, with its two flags, and the low byte behind the page is lost instead. */
  function ClearedCell(ram: seq<Entry>, f: Frame, c: nat): Entry
    requires c < |ram|
  {
    if c / 1024 == f then (if c == 1024 * f then ram[c].(frame := 0) else ZERO)
    else if c == 1024 * f + 1024 then ram[c].(present := false, write := false)
    else ram[c]
  }

  function Cleared(ram: seq<Entry>, f: Frame): (r: seq<Entry>)
    ensures |r| == |ram|
  {
    seq(|ram|, c requires 0 <= c < |ram| => ClearedCell(ram, f, c))
  }

  lemma ClearedIs(ram: seq<Entry>, f: Frame)
    requires Full(ram) && f + 1 < 0x10_0000
    ensures Wiped(Written, Spilled(ram, f + 1), f) == Cleared(ram, f)
  {
    assert Cell(f + 1, 0) == 1024 * f + 1024 && Cell(f + 1, 0) / 1024 != f;
    var s, w, r := Spilled(ram, f + 1), Wiped(Written, Spilled(ram, f + 1), f), Cleared(ram, f);
    forall c | 0 <= c < |ram|
      ensures w[c] == r[c]
    {
      assert w[c] == WipedCell(Written, s, f, c);
    }
  }

  /** In the boot address space the kernel finds the frames of the window and no others. */
  lemma BootTranslate(ram: seq<Entry>, f: Frame)
    requires Full(ram)
    ensures Translate(ram, Boot, Phys2Virt(f)) == if f < 1024 then Some(f) else None
  {
    assert Phys2Virt(f) == if f < 0x4_0000 then KERNEL + 0x1000 * f else 0x1000 * (f - 0x4_0000);
  }

  /** So memset clears the frame if that lies below the last one of the window, and faults if not. */
  lemma BootMemset(ram: seq<Entry>, f: Frame)
    requires Full(ram)
    ensures Memset(Written, ram, Boot, f) == if f < 1023 then Some(Cleared(ram, f)) else None
    ensures forall c :: 0 <= c < |ram| ==>
              Cleared(ram, f)[c]
              == if c == 1024 * f then ram[c].(frame := 0)
                 else if 1024 * f < c < 1024 * f + 1024 then Entry(false, false, 0)
                 else if c == 1024 * f + 1024 then ram[c].(present := false, write := false)
                 else ram[c]
  {
    BootTranslate(ram, f);
    if f < 1023 {
      BootTranslate(ram, f + 1);
      WipeIs(Written, Spilled(ram, f + 1), Boot, f, f);
      ClearedIs(ram, f);
    } else if f == 1023 {
      BootTranslate(ram, 1024);
    } else {
      match Translate(ram, Boot, Phys2Virt(f + 1))
      case None =>
      case Some(h) => WipeFaults(Written, Spilled(ram, h), Boot, f);
    }
  }

  /** Table t maps its i-th page to frame i. */
  function Identity(ram: seq<Entry>, t: Frame): (r: seq<Entry>)
    ensures |r| == |ram|
  {
    seq(|ram|, c requires 0 <= c < |ram| => if c / 1024 == t then Entry(true, true, c % 1024) else ram[c])
  }

  /** Both pages cleared, table t filled in and entered into directory d at 3 GB. */
  function Directory(ram: seq<Entry>, t: Frame, d: Frame): (r: seq<Entry>)
    requires Full(ram)
    ensures Full(r)
  {
    Identity(Cleared(Cleared(ram, t), d), t)[Cell(d, 768) := Entry(true, true, t)]
  }

  lemma DirectoryCells(ram: seq<Entry>, t: Frame, d: Frame, i: nat)
    requires Full(ram) && t < d && i < 1024
    ensures Directory(ram, t, d)[Cell(t, i)] == Entry(true, true, i)
    ensures i == 768 ==> Directory(ram, t, d)[Cell(d, i)] == Entry(true, true, t)
    ensures 0 < i != 768 ==> Directory(ram, t, d)[Cell(d, i)] == Entry(false, false, 0)
    // The directory's own first byte is never cleared, except by the memset of a table right
    // in front of it.
    ensures i == 0 ==>
              Directory(ram, t, d)[Cell(d, i)]
              == if d == t + 1 then Entry(false, false, 0) else ram[Cell(d, 0)].(frame := 0)
  {
    var r1 := Cleared(ram, t);
    var r2 := Cleared(r1, d);
    assert r1[Cell(d, i)] == ClearedCell(ram, t, Cell(d, i));
    assert r2[Cell(d, i)] == ClearedCell(r1, d, Cell(d, i));
  }

  /** The directory is sound and maps the 4 MB from 3 GB on to the bottom of memory. */
  lemma DirectoryWalks(ram: seq<Entry>, t: Frame, d: Frame)
    requires Full(ram) && 0 < t < d
    ensures Sound(Directory(ram, t, d), d)
    ensures Window(Directory(ram, t, d), d)
    ensures forall v: u32 :: DirectoryIndex(v) != 768 && DirectoryIndex(v) != 0 ==>
              Walk(Directory(ram, t, d), d, v) == None
    ensures d == t + 1 || !ram[Cell(d, 0)].present ==>
              forall v: u32 :: DirectoryIndex(v) == 0 ==> Walk(Directory(ram, t, d), d, v) == None
  {
    var r := Directory(ram, t, d);
    forall i | 0 <= i < 1024
      ensures r[Cell(d, i)].present ==> i == 0 || i == 768
      ensures r[Cell(d, i)].present ==> r[Cell(d, i)].frame == if i == 0 then 0 else t
    {
      DirectoryCells(ram, t, d, i);
    }
    DirectoryCells(ram, t, d, 768);
    DirectoryCells(ram, t, d, 0);
    forall v: u32 | KERNEL <= v < HEAP
      ensures Walk(r, d, v) == Some((v - KERNEL) / 0x1000)
    {
      assert DirectoryIndex(v) == 768 && TableIndex(v) == (v - KERNEL) / 0x1000;
      DirectoryCells(ram, t, d, TableIndex(v));
    }
  }

  // ----- The heap pages

  /** All tables lie below frame f. */
  ghost predicate Below(ram: seq<Entry>, dir: Frame, f: nat)
    requires Full(ram)
  {
    dir < f && forall i :: 0 <= i < 1024 && ram[Cell(dir, i)].present ==> ram[Cell(dir, i)].frame < f
  }

  /** The first heap page gets a table above all others, inside the window: the written memset
      meets nothing that a walk uses, and the entry it leaves alone is the one about to be set. */
  lemma FirstHeapPage(ram: seq<Entry>, dir: Frame, f: Frame, phys: u32)
    requires Full(ram) && Sound(ram, dir) && Window(ram, dir) && Below(ram, dir, f) && f < 1023
    requires !HasTable(ram, dir, HEAP)
    ensures var r := MapPage(Written, ram, dir, f, phys, HEAP);
      && r.Some? && Refines(ram, r.value, dir, phys, HEAP) && Sound(r.value, dir)
      && r.value[Cell(dir, 769)] == Entry(true, true, f)
      && (forall i :: 0 <= i < 1024 && i != 769 ==> r.value[Cell(dir, i)] == ram[Cell(dir, i)])
      && r.value[Cell(f, 0)] == Entry(true, true, phys / 0x1000)
      && forall g: Frame, i :: 0 <= i < 1024 && g < f && g != dir ==> r.value[Cell(g, i)] == ram[Cell(g, i)]
  {
    var s := Spilled(ram, f + 1);
    assert DirectoryIndex(HEAP) == 769 && TableIndex(HEAP) == 0;
    WindowMaps(ram, dir, f, phys, HEAP);
    WindowSpill(ram, dir, f);
    WindowReaches(ram, dir, dir);
    RestRefines(Written, ram, s, dir, f, phys, HEAP);
    RestSound(Written, s, dir, f, phys, HEAP);
    WindowReaches(ram, dir, f + 1);
    MapPageStores(Written, ram, dir, f, phys, HEAP);
  }

  /** If the table would lie behind the window, or be its last frame, the first heap page faults, in
      an address space that maps nothing else but the window and slot 0. */
  lemma FirstHeapFaults(ram: seq<Entry>, dir: Frame, f: Frame, phys: u32)
    requires Full(ram) && Window(ram, dir) && dir < 1024 && 1023 <= f < 0x4_0000 && !HasTable(ram, dir, HEAP)
    requires forall v: u32 :: DirectoryIndex(v) != 768 && DirectoryIndex(v) != 0 ==> Walk(ram, dir, v) == None
    ensures MapPage(Written, ram, dir, f, phys, HEAP).None?
  {
    WindowReaches(ram, dir, dir);
    if f == 1023 {
      assert Phys2Virt(f + 1) == HEAP && DirectoryIndex(HEAP) == 769;
    } else {
      assert Phys2Virt(f) == KERNEL + 0x1000 * f && DirectoryIndex(Phys2Virt(f)) == 768 + f / 1024;
      UnmappedFaults(Written, ram, dir, f);
    }
  }

  /** Later pages go into the same table. */
  lemma NextHeapPage(ram: seq<Entry>, dir: Frame, f: Frame, table: Frame, phys: u32, virt: u32)
    requires Full(ram) && Sound(ram, dir) && Window(ram, dir) && dir < 1024 && table < 1024
    requires DirectoryIndex(virt) == 769 && ram[Cell(dir, 769)] == Entry(true, true, table)
    ensures var r := MapPage(Written, ram, dir, f, phys, virt);
      && r.Some? && Refines(ram, r.value, dir, phys, virt) && Sound(r.value, dir)
      && (forall i :: 0 <= i < 1024 ==> r.value[Cell(dir, i)] == ram[Cell(dir, i)])
      && r.value == ram[Cell(table, TableIndex(virt)) := Entry(true, true, phys / 0x1000)]
  {
    WindowReaches(ram, dir, dir);
    WindowReaches(ram, dir, table);
    LeafWorks(Written, ram, dir, f, phys, virt);
  }

  /** The address space once the pages in `frames` have been mapped from HEAP on, over one that
      walks as `base`. */
  ghost predicate HeapMapped(base: seq<Entry>, ram: seq<Entry>, dir: Frame, frames: seq<Frame>)
    requires Full(base) && Full(ram) && |frames| <= HEAP_PAGES
  {
    forall v: u32 :: Walk(ram, dir, v) ==
      if HEAP <= v < HEAP + 0x1000 * |frames| then Some(frames[(v - HEAP) / 0x1000]) else Walk(base, dir, v)
  }

  lemma HeapMappedNext(base: seq<Entry>, ram: seq<Entry>, after: seq<Entry>, dir: Frame, frames: seq<Frame>, p: Frame)
    requires Full(base) && Full(ram) && Full(after) && |frames| < HEAP_PAGES
    requires HeapMapped(base, ram, dir, frames)
    requires Refines(ram, after, dir, 0x1000 * p, HEAP + 0x1000 * |frames|)
    ensures HeapMapped(base, after, dir, frames + [p])
  {
    var virt := HEAP + 0x1000 * |frames|;
    forall v: u32
      ensures Walk(after, dir, v) ==
        if HEAP <= v < HEAP + 0x1000 * (|frames| + 1) then Some((frames + [p])[(v - HEAP) / 0x1000])
        else Walk(base, dir, v)
    {
      assert SamePage(v, virt) <==> virt <= v < virt + 0x1000;
      assert Walk(after, dir, v) == if SamePage(v, virt) then Some(p) else Walk(ram, dir, v);
    }
  }

  // ----- A recycled frame

  /** Memory that is empty but for the first entry of frame f. */
  ghost predicate OnlyStale(ram: seq<Entry>, f: Frame) {
    && Full(ram)
    && forall c :: 0 <= c < |ram| ==> ram[c] == if c == 1024 * f then Entry(true, true, 7) else ZERO
  }

  /** In the address space that a directory at d makes of it, f is granted for the table of page 1:
      then page 0 is mapped too, to frame 0. */
  lemma StaleFrameBreaks(before: seq<Entry>, t: Frame, d: Frame, f: Frame)
    requires OnlyStale(before, f) && 0 < t < d && d + 1 < f < 1023
    ensures var ram := Directory(before, t, d);
      var r := MapPage(Written, ram, d, f, 0x5000, 0x1000);
      r.Some? && Walk(ram, d, 0) == None && Walk(r.value, d, 0) == Some(0)
  {
    var ram := Directory(before, t, d);
    DirectoryWalks(before, t, d);
    forall i | 0 <= i < 1024
      ensures ram[Cell(d, i)].present ==> i == 768 && ram[Cell(d, i)].frame == t
    {
      DirectoryCells(before, t, d, i);
      assert Cell(d, 0) != 1024 * f;
    }
    StaleCell(before, t, d, f);
    PagesOfSlot0();
    StaleEntryBreaks(ram, d, f);
  }

  lemma StaleCell(before: seq<Entry>, t: Frame, d: Frame, f: Frame)
    requires OnlyStale(before, f) && 0 < t < d && d + 1 < f < 1023
    ensures Directory(before, t, d)[Cell(f, 0)].present
  {
    var r1 := Cleared(before, t);
    assert r1[Cell(f, 0)] == ClearedCell(before, t, Cell(f, 0));
    assert Cleared(r1, d)[Cell(f, 0)] == ClearedCell(r1, d, Cell(f, 0));
  }
}
