/** Two-level page tables in physical memory, as 32-bit paging walks them (section 4.3 of the
    Intel SDM, Volume 3A), and the window at 3 GB through which the kernel reaches them. */
module Paging {
  import opened Machine

  const FRAMES: nat := 0x10_0000

  type Frame = f: nat | f < 0x10_0000

  /** A directory or table entry: the two flag bits the code sets and the frame number. The
      other bits are never read. */
  datatype Entry = Entry(present: bool, write: bool, frame: Frame)

  const ZERO: Entry := Entry(false, false, 0)

  // ----- Physical memory, entry by entry

  predicate Full(ram: seq<Entry>) {
    |ram| == 0x4000_0000
  }

  function Cell(f: Frame, i: nat): (c: nat)
    requires i < 1024
    ensures c < 0x4000_0000
  {
    1024 * f + i
  }

  function DirectoryIndex(virt: u32): (i: nat)
    ensures i < 1024
  {
    virt / 0x40_0000
  }

  function TableIndex(virt: u32): (i: nat)
    ensures i < 1024
  {
    virt / 0x1000 % 1024
  }

  predicate SamePage(v: u32, w: u32) {
    v / 0x1000 == w / 0x1000
  }

  /** The two indices identify the page. */
  lemma IndicesIdentifyPage(v: u32, w: u32)
    ensures SamePage(v, w) <==> DirectoryIndex(v) == DirectoryIndex(w) && TableIndex(v) == TableIndex(w)
  {
    assert v / 0x40_0000 == v / 0x1000 / 1024 && w / 0x40_0000 == w / 0x1000 / 1024;
  }

  /** The frame that the page of virt is mapped to. */
  function Walk(ram: seq<Entry>, dir: Frame, virt: u32): Option<Frame>
    requires Full(ram)
  {
    var table := ram[Cell(dir, DirectoryIndex(virt))];
    if !table.present then None
    else
      var page := ram[Cell(table.frame, TableIndex(virt))];
      if page.present then Some(page.frame) else None
  }

  /** No two directory entries share a table, and none points back at the directory. */
  ghost predicate Sound(ram: seq<Entry>, dir: Frame)
    requires Full(ram)
  {
    && (forall d :: 0 <= d < 1024 && ram[Cell(dir, d)].present ==> ram[Cell(dir, d)].frame != dir)
    && (forall d, e :: 0 <= d < e < 1024 && ram[Cell(dir, d)].present && ram[Cell(dir, e)].present ==>
          ram[Cell(dir, d)].frame != ram[Cell(dir, e)].frame)
  }

  /** Frame f is neither the directory nor one of its tables. */
  ghost predicate Fresh(ram: seq<Entry>, dir: Frame, f: Frame)
    requires Full(ram)
  {
    f != dir && forall d :: 0 <= d < 1024 && ram[Cell(dir, d)].present ==> ram[Cell(dir, d)].frame != f
  }

  /** The page of virt now leads to phys, and every other page leads where it did. */
  ghost predicate Refines(before: seq<Entry>, after: seq<Entry>, dir: Frame, phys: u32, virt: u32)
    requires Full(before) && Full(after)
  {
    forall v: u32 :: Walk(after, dir, v) == if SamePage(v, virt) then Some(phys / 0x1000) else Walk(before, dir, v)
  }

  predicate HasTable(ram: seq<Entry>, dir: Frame, virt: u32)
    requires Full(ram)
  {
    ram[Cell(dir, DirectoryIndex(virt))].present
  }

  /** The same directory entries, and the same walks. */
  ghost predicate SameTables(before: seq<Entry>, after: seq<Entry>, dir: Frame)
    requires Full(before) && Full(after)
  {
    && (forall d :: 0 <= d < 1024 ==> after[Cell(dir, d)] == before[Cell(dir, d)])
    && forall v: u32 :: Walk(after, dir, v) == Walk(before, dir, v)
  }

  /** What is stored in a frame that is no table changes no walk. */
  lemma OutsideTables(ram: seq<Entry>, after: seq<Entry>, dir: Frame, g: Frame)
    requires Full(ram) && Full(after) && Fresh(ram, dir, g)
    requires forall c :: 0 <= c < |ram| && c / 1024 != g ==> after[c] == ram[c]
    ensures SameTables(ram, after, dir)
  {
    forall x: Frame, i | x != g && 0 <= i < 1024
      ensures after[Cell(x, i)] == ram[Cell(x, i)]
    {
      assert Cell(x, i) / 1024 == x;
    }
  }

  // ----- The kernel window

  const KERNEL: u32 := 0xC000_0000
  const HEAP: u32 := 0xC040_0000

  /** PHYS_2_VIRT: where the kernel looks for frame f, or for the frame behind the last. */
  function Phys2Virt(f: nat): u32
    requires f <= 0x10_0000
  {
    if f < 0x4_0000 then 0xC000_0000 + 0x1000 * f else 0x1000 * (f - 0x4_0000)
  }

  /** That is, 3 GB above the frame, in 32-bit arithmetic. */
  lemma Phys2VirtWraps(f: nat)
    requires f <= 0x10_0000
    ensures Phys2Virt(f) == Wrap(0xC000_0000 + 0x1000 * f)
  {
  }

  /** The address space in force: that of the boot directory, which maps the 4 MB at 3 GB and
      nothing else, or that of a directory in memory. */
  datatype Root = Boot | Tables(dir: Frame)

  function Translate(ram: seq<Entry>, root: Root, v: u32): Option<Frame>
    requires Full(ram)
  {
    match root
    case Boot => if KERNEL <= v < HEAP then Some((v - KERNEL) / 0x1000) else None
    case Tables(dir) => Walk(ram, dir, v)
  }

  /** The kernel finds frame f where it looks for it. */
  predicate Reached(ram: seq<Entry>, dir: Frame, f: Frame)
    requires Full(ram)
  {
    Walk(ram, dir, Phys2Virt(f)) == Some(f)
  }

  ghost predicate AllReached(ram: seq<Entry>, dir: Frame, frames: set<nat>)
    requires Full(ram)
  {
    forall f: Frame {:trigger Reached(ram, dir, f)} :: f in frames ==> Reached(ram, dir, f)
  }

  /** The first 4 MB of memory are mapped at 3 GB. */
  ghost predicate Window(ram: seq<Entry>, dir: Frame)
    requires Full(ram)
  {
    forall v: u32 :: KERNEL <= v < HEAP ==> Walk(ram, dir, v) == Some((v - KERNEL) / 0x1000)
  }

  lemma WindowReaches(ram: seq<Entry>, dir: Frame, f: Frame)
    requires Full(ram) && Window(ram, dir) && f < 1024
    ensures Phys2Virt(f) == KERNEL + 0x1000 * f < HEAP && Reached(ram, dir, f)
  {
  }

  /** Different frames are looked for on different pages. */
  lemma Phys2VirtDiffer(f: Frame, g: Frame)
    requires SamePage(Phys2Virt(f), Phys2Virt(g))
    ensures f == g
  {
  }

  // ----- Who owns the tables

  /** The directory and every table it names lie in `frames`. */
  ghost predicate Owned(ram: seq<Entry>, dir: Frame, frames: set<nat>)
    requires Full(ram)
  {
    dir in frames && forall d :: 0 <= d < 1024 && ram[Cell(dir, d)].present ==> ram[Cell(dir, d)].frame in frames
  }

  /** A frame outside them is fresh. */
  lemma OwnedFresh(ram: seq<Entry>, dir: Frame, frames: set<nat>, f: Frame)
    requires Full(ram) && Owned(ram, dir, frames) && f !in frames
    ensures Fresh(ram, dir, f)
  {
  }

  /** Writes outside them change no walk. */
  lemma OwnedWalk(ram: seq<Entry>, after: seq<Entry>, dir: Frame, frames: set<nat>, v: u32)
    requires Full(ram) && Full(after) && Owned(ram, dir, frames)
    requires forall f: Frame, i :: f in frames && 0 <= i < 1024 ==> after[Cell(f, i)] == ram[Cell(f, i)]
    ensures Walk(after, dir, v) == Walk(ram, dir, v)
    ensures Owned(after, dir, frames) && (Sound(ram, dir) ==> Sound(after, dir))
  {
    assert forall d :: 0 <= d < 1024 ==> after[Cell(dir, d)] == ram[Cell(dir, d)];
  }
}
