/** mapPage, store by store, through the address space that it is changing. */
module PageMapping {
  import opened Machine
  import opened Paging

  // ----- Stores; None stands for a page fault

  /** Entry i of the frame that `page` leads to. */
  function Put(ram: seq<Entry>, root: Root, page: u32, i: nat, e: Entry): (r: Option<seq<Entry>>)
    requires Full(ram) && i < 1024
    ensures r.Some? ==> Full(r.value)
  {
    match Translate(ram, root, page)
    case None => None
    case Some(g) => Some(ram[Cell(g, i) := e])
  }

  /** Zeroes for the entries n - 1 down to `low` of the page. */
  function Scrub(ram: seq<Entry>, root: Root, page: u32, n: nat, low: nat): (r: Option<seq<Entry>>)
    requires Full(ram) && low <= n <= 1024
    ensures r.Some? ==> Full(r.value)
    decreases n - low
  {
    if n == low then Some(ram)
    else
      match Put(ram, root, page, n - 1, ZERO)
      case None => None
      case Some(r) => Scrub(r, root, page, n - 1, low)
  }

  /** Zeroes for the three high bytes of entry 0. */
  function HighBytes(ram: seq<Entry>, root: Root, page: u32): (r: Option<seq<Entry>>)
    requires Full(ram)
    ensures r.Some? ==> Full(r.value)
  {
    match Translate(ram, root, page)
    case None => None
    case Some(g) => Some(ram[Cell(g, 0) := ram[Cell(g, 0)].(frame := 0)])
  }

  /** The part of memset that falls on the page of frame f: as written it stops before byte 0. */
  function Wipe(fill: Form, ram: seq<Entry>, root: Root, f: Frame): (r: Option<seq<Entry>>)
    requires Full(ram)
    ensures r.Some? ==> Full(r.value)
  {
    if fill.Intended? then Scrub(ram, root, Phys2Virt(f), 1024, 0)
    else
      match Scrub(ram, root, Phys2Virt(f), 1024, 1)
      case None => None
      case Some(r) => HighBytes(r, root, Phys2Virt(f))
  }

  /** The first entry of frame h without its two flags, which are in its low byte. */
  function Spilled(ram: seq<Entry>, h: Frame): (r: seq<Entry>)
    requires Full(ram)
    ensures Full(r)
  {
    ram[Cell(h, 0) := ram[Cell(h, 0)].(present := false, write := false)]
  }

  /** As written, memset starts with byte 4096, the first one behind the page. */
  function Spill(ram: seq<Entry>, root: Root, f: Frame): (r: Option<seq<Entry>>)
    requires Full(ram)
    ensures r.Some? ==> Full(r.value)
  {
    match Translate(ram, root, Phys2Virt(f + 1))
    case None => None
    case Some(h) => Some(Spilled(ram, h))
  }

  function Memset(fill: Form, ram: seq<Entry>, root: Root, f: Frame): (r: Option<seq<Entry>>)
    requires Full(ram)
    ensures r.Some? ==> Full(r.value)
  {
    if fill.Intended? then Wipe(fill, ram, root, f)
    else
      match Spill(ram, root, f)
      case None => None
      case Some(r) => Wipe(fill, r, root, f)
  }

  // ----- mapPage

  /** The leaf, in the table at frame t. */
  function Leaf(ram: seq<Entry>, dir: Frame, t: Frame, phys: u32, virt: u32): (r: Option<seq<Entry>>)
    requires Full(ram)
    ensures r.Some? ==> Full(r.value)
  {
    Put(ram, Tables(dir), Phys2Virt(t), TableIndex(virt), Entry(true, true, phys / 0x1000))
  }

  /** The directory entry for the new table f, which is then read back to find the table. */
  function Enter(ram: seq<Entry>, dir: Frame, f: Frame, phys: u32, virt: u32): (r: Option<seq<Entry>>)
    requires Full(ram)
    ensures r.Some? ==> Full(r.value)
  {
    match Put(ram, Tables(dir), Phys2Virt(dir), DirectoryIndex(virt), Entry(true, true, f))
    case None => None
    case Some(r) =>
      match Walk(r, dir, Phys2Virt(dir))
      case None => None
      case Some(g) => Leaf(r, dir, r[Cell(g, DirectoryIndex(virt))].frame, phys, virt)
  }

  /** mapPage behind the first store of memset. */
  function Rest(fill: Form, ram: seq<Entry>, dir: Frame, f: Frame, phys: u32, virt: u32): (r: Option<seq<Entry>>)
    requires Full(ram)
    ensures r.Some? ==> Full(r.value)
  {
    match Wipe(fill, ram, Tables(dir), f)
    case None => None
    case Some(r) => Enter(r, dir, f, phys, virt)
  }

  /** mapPage, where f is the frame the page allocator grants if a table is missing. */
  function MapPage(fill: Form, ram: seq<Entry>, dir: Frame, f: Frame, phys: u32, virt: u32): (r: Option<seq<Entry>>)
    requires Full(ram)
    ensures r.Some? ==> Full(r.value)
  {
    match Walk(ram, dir, Phys2Virt(dir))
    case None => None
    case Some(g) =>
      var entry := ram[Cell(g, DirectoryIndex(virt))];
      if entry.present then Leaf(ram, dir, entry.frame, phys, virt) else AddTable(fill, ram, dir, f, phys, virt)
  }

  /** With a new table. */
  function AddTable(fill: Form, ram: seq<Entry>, dir: Frame, f: Frame, phys: u32, virt: u32): (r: Option<seq<Entry>>)
    requires Full(ram)
    ensures r.Some? ==> Full(r.value)
  {
    match Memset(fill, ram, Tables(dir), f)
    case None => None
    case Some(r) => Enter(r, dir, f, phys, virt)
  }

  // ----- What the stores amount to when they stay off the tables

  /** Entries low to n - 1 of frame g cleared. */
  function Scrubbed(ram: seq<Entry>, g: Frame, n: nat, low: nat): (r: seq<Entry>)
    ensures |r| == |ram|
  {
    seq(|ram|, c requires 0 <= c < |ram| => if c / 1024 == g && low <= c % 1024 < n then ZERO else ram[c])
  }

  function WipedCell(fill: Form, ram: seq<Entry>, g: Frame, c: nat): Entry
    requires c < |ram|
  {
    if c / 1024 != g then ram[c]
    else if fill.Written? && c % 1024 == 0 then ram[c].(frame := 0)
    else ZERO
  }

  /** Frame g cleared, but for what memset as written leaves. */
  function Wiped(fill: Form, ram: seq<Entry>, g: Frame): (r: seq<Entry>)
    ensures |r| == |ram|
  {
    seq(|ram|, c requires 0 <= c < |ram| => WipedCell(fill, ram, g, c))
  }

  /** Stores into frame g do not change where they go. */
  ghost predicate Off(ram: seq<Entry>, root: Root, g: Frame)
    requires Full(ram)
  {
    root.Tables? ==> Fresh(ram, root.dir, g)
  }

  lemma OffStays(ram: seq<Entry>, root: Root, g: Frame, i: nat, e: Entry, v: u32)
    requires Full(ram) && Off(ram, root, g) && i < 1024
    ensures var r := ram[Cell(g, i) := e]; Off(r, root, g) && Translate(r, root, v) == Translate(ram, root, v)
  {
    if root.Tables? {
      OutsideTables(ram, ram[Cell(g, i) := e], root.dir, g);
    }
  }

  lemma {:induction false} ScrubIs(ram: seq<Entry>, root: Root, page: u32, g: Frame, n: nat, low: nat)
    requires Full(ram) && low <= n <= 1024 && Off(ram, root, g) && Translate(ram, root, page) == Some(g)
    ensures Scrub(ram, root, page, n, low) == Some(Scrubbed(ram, g, n, low))
    decreases n - low
  {
    if n == low {
      assert Scrubbed(ram, g, n, low) == ram;
    } else {
      var r := ram[Cell(g, n - 1) := ZERO];
      OffStays(ram, root, g, n - 1, ZERO, page);
      ScrubIs(r, root, page, g, n - 1, low);
      ScrubbedNext(ram, g, n, low);
    }
  }

  lemma ScrubbedNext(ram: seq<Entry>, g: Frame, n: nat, low: nat)
    requires Full(ram) && low < n <= 1024
    ensures Scrubbed(ram[Cell(g, n - 1) := ZERO], g, n - 1, low) == Scrubbed(ram, g, n, low)
  {
    assert Cell(g, n - 1) / 1024 == g && Cell(g, n - 1) % 1024 == n - 1;
  }

  lemma ScrubbedAll(ram: seq<Entry>, g: Frame)
    requires Full(ram)
    ensures Scrubbed(ram, g, 1024, 0) == Wiped(Intended, ram, g)
  {
  }

  lemma ScrubbedBut(ram: seq<Entry>, g: Frame)
    requires Full(ram)
    ensures var r := Scrubbed(ram, g, 1024, 1);
      r[Cell(g, 0) := r[Cell(g, 0)].(frame := 0)] == Wiped(Written, ram, g)
  {
    assert Cell(g, 0) / 1024 == g && Cell(g, 0) % 1024 == 0;
    var r := Scrubbed(ram, g, 1024, 1);
    var s, w := r[Cell(g, 0) := r[Cell(g, 0)].(frame := 0)], Wiped(Written, ram, g);
    forall c | 0 <= c < |ram|
      ensures s[c] == w[c]
    {
      assert w[c] == WipedCell(Written, ram, g, c);
      assert c != Cell(g, 0) && c / 1024 == g ==> 1 <= c % 1024;
    }
  }

  lemma WipeIs(fill: Form, ram: seq<Entry>, root: Root, f: Frame, g: Frame)
    requires Full(ram) && Off(ram, root, g) && Translate(ram, root, Phys2Virt(f)) == Some(g)
    ensures Wipe(fill, ram, root, f) == Some(Wiped(fill, ram, g))
  {
    if fill.Intended? {
      ScrubIs(ram, root, Phys2Virt(f), g, 1024, 0);
      ScrubbedAll(ram, g);
    } else {
      ScrubIs(ram, root, Phys2Virt(f), g, 1024, 1);
      ScrubbedOff(ram, root, g, 1024, 1, Phys2Virt(f));
      ScrubbedBut(ram, g);
    }
  }

  lemma ScrubbedOff(ram: seq<Entry>, root: Root, g: Frame, n: nat, low: nat, v: u32)
    requires Full(ram) && Off(ram, root, g)
    ensures Translate(Scrubbed(ram, g, n, low), root, v) == Translate(ram, root, v)
  {
    if root.Tables? {
      OutsideTables(ram, Scrubbed(ram, g, n, low), root.dir, g);
    }
  }

  /** An unmapped page faults at the first store. */
  lemma WipeFaults(fill: Form, ram: seq<Entry>, root: Root, f: Frame)
    requires Full(ram) && Translate(ram, root, Phys2Virt(f)).None?
    ensures Wipe(fill, ram, root, f).None?
  {
  }

  // ----- The byte behind the page

  /** Losing the flags of one entry takes pages away and changes nothing else. */
  lemma SpilledIs(ram: seq<Entry>, dir: Frame, h: Frame)
    requires Full(ram)
    ensures var r := Spilled(ram, h);
      && (forall v: u32 :: Walk(r, dir, v) == Walk(ram, dir, v) || Walk(r, dir, v) == None)
      && (forall d :: 0 <= d < 1024 && r[Cell(dir, d)].present ==> r[Cell(dir, d)] == ram[Cell(dir, d)])
  {
  }

  lemma SpilledSound(ram: seq<Entry>, dir: Frame, h: Frame, frames: set<nat>, f: Frame)
    requires Full(ram) && Sound(ram, dir) && Owned(ram, dir, frames) && Fresh(ram, dir, f)
    ensures var r := Spilled(ram, h); Sound(r, dir) && Owned(r, dir, frames) && Fresh(r, dir, f)
  {
    SpilledIs(ram, dir, h);
  }

  // ----- The directory entry and the leaf

  /** Memory with the directory entry for table f, and the leaf in frame g. */
  function Entered(ram: seq<Entry>, dir: Frame, f: Frame, g: Frame, phys: u32, virt: u32): (r: seq<Entry>)
    requires Full(ram)
    ensures Full(r)
  {
    ram[Cell(dir, DirectoryIndex(virt)) := Entry(true, true, f)]
       [Cell(g, TableIndex(virt)) := Entry(true, true, phys / 0x1000)]
  }

  /** A directory entry for an empty slot changes no page that is mapped. */
  lemma SlotKeeps(ram: seq<Entry>, dir: Frame, f: Frame, d: nat, v: u32)
    requires Full(ram) && Sound(ram, dir) && d < 1024 && !ram[Cell(dir, d)].present && Walk(ram, dir, v).Some?
    ensures Walk(ram[Cell(dir, d) := Entry(true, true, f)], dir, v) == Walk(ram, dir, v)
  {
  }

  lemma EnterIs(ram: seq<Entry>, dir: Frame, f: Frame, g: Frame, phys: u32, virt: u32)
    requires Full(ram) && Sound(ram, dir) && !HasTable(ram, dir, virt)
    requires Reached(ram, dir, dir) && Walk(ram, dir, Phys2Virt(f)) == Some(g)
    ensures Enter(ram, dir, f, phys, virt) == Some(Entered(ram, dir, f, g, phys, virt))
  {
    SlotKeeps(ram, dir, f, DirectoryIndex(virt), Phys2Virt(dir));
    SlotKeeps(ram, dir, f, DirectoryIndex(virt), Phys2Virt(f));
  }

  /** Every walk afterwards, for frames f and g that were no tables: the new slot shows what is in
      frame f, which is the new leaf only if g is f. */
  lemma EnteredWalk(ram: seq<Entry>, dir: Frame, f: Frame, g: Frame, phys: u32, virt: u32, v: u32)
    requires Full(ram) && Sound(ram, dir) && !HasTable(ram, dir, virt) && Fresh(ram, dir, f) && Fresh(ram, dir, g)
    ensures Walk(Entered(ram, dir, f, g, phys, virt), dir, v) ==
            if DirectoryIndex(v) != DirectoryIndex(virt) then Walk(ram, dir, v)
            else if g == f && TableIndex(v) == TableIndex(virt) then Some(phys / 0x1000)
            else if ram[Cell(f, TableIndex(v))].present then Some(ram[Cell(f, TableIndex(v))].frame)
            else None
  {
  }

  lemma EnteredSound(ram: seq<Entry>, dir: Frame, f: Frame, g: Frame, phys: u32, virt: u32)
    requires Full(ram) && Sound(ram, dir) && Fresh(ram, dir, f) && g != dir
    ensures var r := Entered(ram, dir, f, g, phys, virt);
      && Sound(r, dir) && r[Cell(dir, DirectoryIndex(virt))] == Entry(true, true, f)
      && forall d :: 0 <= d < 1024 && d != DirectoryIndex(virt) ==> r[Cell(dir, d)] == ram[Cell(dir, d)]
  {
  }

  // ----- A page whose slot has no table

  lemma WipedTables(fill: Form, ram: seq<Entry>, dir: Frame, g: Frame)
    requires Full(ram) && Fresh(ram, dir, g)
    ensures SameTables(ram, Wiped(fill, ram, g), dir)
  {
    OutsideTables(ram, Wiped(fill, ram, g), dir, g);
  }

  lemma WipedEntry(fill: Form, ram: seq<Entry>, g: Frame, i: nat)
    requires Full(ram) && i < 1024
    ensures Wiped(fill, ram, g)[Cell(g, i)] == if fill.Written? && i == 0 then ram[Cell(g, 0)].(frame := 0) else ZERO
  {
    assert Cell(g, i) / 1024 == g && Cell(g, i) % 1024 == i;
  }

  /** When the kernel finds the directory, and some frame g that is no table where it looks for f. */
  lemma RestIs(fill: Form, ram: seq<Entry>, dir: Frame, f: Frame, g: Frame, phys: u32, virt: u32)
    requires Full(ram) && Sound(ram, dir) && !HasTable(ram, dir, virt) && Fresh(ram, dir, g)
    requires Reached(ram, dir, dir) && Walk(ram, dir, Phys2Virt(f)) == Some(g)
    ensures Rest(fill, ram, dir, f, phys, virt) == Some(Entered(Wiped(fill, ram, g), dir, f, g, phys, virt))
    ensures Sound(Wiped(fill, ram, g), dir) && !HasTable(Wiped(fill, ram, g), dir, virt)
  {
    WipeIs(fill, ram, Tables(dir), f, g);
    WipedTables(fill, ram, dir, g);
    EnterIs(Wiped(fill, ram, g), dir, f, g, phys, virt);
  }

  /** The walks when that frame is f itself. */
  lemma RestWalk(fill: Form, ram: seq<Entry>, dir: Frame, f: Frame, phys: u32, virt: u32, v: u32)
    requires Full(ram) && Sound(ram, dir) && !HasTable(ram, dir, virt) && Fresh(ram, dir, f)
    requires Reached(ram, dir, dir) && Reached(ram, dir, f)
    ensures var r := Rest(fill, ram, dir, f, phys, virt);
      r.Some? && Walk(r.value, dir, v) ==
        if DirectoryIndex(v) != DirectoryIndex(virt) then Walk(ram, dir, v)
        else if TableIndex(v) == TableIndex(virt) then Some(phys / 0x1000)
        else if fill.Written? && TableIndex(v) == 0 && ram[Cell(f, 0)].present then Some(0)
        else None
  {
    RestIs(fill, ram, dir, f, f, phys, virt);
    var w := Wiped(fill, ram, f);
    WipedTables(fill, ram, dir, f);
    EnteredWalk(w, dir, f, f, phys, virt, v);
    WipedEntry(fill, ram, f, TableIndex(v));
  }

  lemma RestSound(fill: Form, ram: seq<Entry>, dir: Frame, f: Frame, phys: u32, virt: u32)
    requires Full(ram) && Sound(ram, dir) && !HasTable(ram, dir, virt) && Fresh(ram, dir, f)
    requires Reached(ram, dir, dir) && Reached(ram, dir, f)
    ensures var r := Rest(fill, ram, dir, f, phys, virt);
      && r.Some? && Sound(r.value, dir)
      && r.value[Cell(dir, DirectoryIndex(virt))] == Entry(true, true, f)
      && forall d :: 0 <= d < 1024 && d != DirectoryIndex(virt) ==> r.value[Cell(dir, d)] == ram[Cell(dir, d)]
  {
    RestIs(fill, ram, dir, f, f, phys, virt);
    WipedTables(fill, ram, dir, f);
    EnteredSound(Wiped(fill, ram, f), dir, f, f, phys, virt);
  }

  lemma RestFaults(fill: Form, ram: seq<Entry>, dir: Frame, f: Frame, phys: u32, virt: u32)
    requires Full(ram) && Fresh(ram, dir, f) && Reached(ram, dir, f) && Walk(ram, dir, Phys2Virt(dir)).None?
    ensures Rest(fill, ram, dir, f, phys, virt).None?
  {
    WipeIs(fill, ram, Tables(dir), f, f);
    WipedTables(fill, ram, dir, f);
  }

  // ----- When mapPage is a map update

  /** As written, memset does no harm: the byte behind the page can be reached and takes no page
      away, and the first entry of the new table is not marked present or is the one about to be
      set. */
  ghost predicate Harmless(ram: seq<Entry>, dir: Frame, f: Frame, virt: u32)
    requires Full(ram)
  {
    var r := Spill(ram, Tables(dir), f);
    && r.Some?
    && (forall v: u32 :: Walk(r.value, dir, v) == Walk(ram, dir, v))
    && (r.value[Cell(f, 0)].present ==> TableIndex(virt) == 0)
  }

  /** The request moves none of the pages where the kernel looks for these frames. */
  ghost predicate Keeps(frames: set<nat>, phys: u32, virt: u32) {
    forall f: Frame :: f in frames && SamePage(Phys2Virt(f), virt) ==> phys / 0x1000 == f
  }

  /** The condition for mapPage: if the slot has a table, the request keeps the tables reached; if
      not, the granted frame is reached, and memset does no harm. */
  ghost predicate Spared(fill: Form, ram: seq<Entry>, dir: Frame, tables: set<nat>, f: Frame, phys: u32, virt: u32)
    requires Full(ram)
  {
    if HasTable(ram, dir, virt) then Keeps(tables, phys, virt)
    else Reached(ram, dir, f) && (fill.Written? ==> Harmless(ram, dir, f, virt))
  }

  function TablesAfter(ram: seq<Entry>, dir: Frame, tables: set<nat>, f: Frame, virt: u32): set<nat>
    requires Full(ram)
  {
    if HasTable(ram, dir, virt) then tables else tables + {f}
  }

  /** mapPage ends without a fault, changes the one page, and all tables stay reached. */
  ghost predicate Works(ram: seq<Entry>, r: Option<seq<Entry>>, dir: Frame, tables: set<nat>, phys: u32, virt: u32)
    requires Full(ram) && (r.Some? ==> Full(r.value))
  {
    r.Some? && Refines(ram, r.value, dir, phys, virt) && AllReached(r.value, dir, tables)
  }

  /** The directory and its tables are distinct, are among `tables`, and are reached. */
  ghost predicate Ready(ram: seq<Entry>, dir: Frame, tables: set<nat>)
    requires Full(ram)
  {
    Sound(ram, dir) && Owned(ram, dir, tables) && AllReached(ram, dir, tables)
  }

  /** A leaf stored in the table of its slot changes the walk of its page and of no other. */
  lemma LeafRefines(ram: seq<Entry>, dir: Frame, phys: u32, virt: u32)
    requires Full(ram) && Sound(ram, dir) && HasTable(ram, dir, virt)
    ensures var t := ram[Cell(dir, DirectoryIndex(virt))].frame;
      var after := ram[Cell(t, TableIndex(virt)) := Entry(true, true, phys / 0x1000)];
      && Refines(ram, after, dir, phys, virt)
      && forall d :: 0 <= d < 1024 ==> after[Cell(dir, d)] == ram[Cell(dir, d)]
  {
    var t := ram[Cell(dir, DirectoryIndex(virt))].frame;
    var after := ram[Cell(t, TableIndex(virt)) := Entry(true, true, phys / 0x1000)];
    forall v: u32
      ensures Walk(after, dir, v) == if SamePage(v, virt) then Some(phys / 0x1000) else Walk(ram, dir, v)
    {
      IndicesIdentifyPage(v, virt);
    }
  }

  /** A page whose slot has a table: mapPage stores that leaf. */
  lemma LeafWorks(fill: Form, ram: seq<Entry>, dir: Frame, f: Frame, phys: u32, virt: u32)
    requires Full(ram) && Sound(ram, dir) && HasTable(ram, dir, virt)
    requires Reached(ram, dir, dir) && Reached(ram, dir, ram[Cell(dir, DirectoryIndex(virt))].frame)
    ensures var r := MapPage(fill, ram, dir, f, phys, virt);
      && r.Some? && Refines(ram, r.value, dir, phys, virt) && Sound(r.value, dir)
      && (forall d :: 0 <= d < 1024 ==> r.value[Cell(dir, d)] == ram[Cell(dir, d)])
      && r.value == ram[Cell(ram[Cell(dir, DirectoryIndex(virt))].frame, TableIndex(virt))
                        := Entry(true, true, phys / 0x1000)]
  {
    LeafRefines(ram, dir, phys, virt);
  }

  // ----- The entries themselves

  /** The kernel finds the directory, and the table of the slot or else the frame granted for it,
      which is no table yet. */
  ghost predicate Found(ram: seq<Entry>, dir: Frame, f: Frame, virt: u32)
    requires Full(ram)
  {
    && Sound(ram, dir) && Reached(ram, dir, dir)
    && if HasTable(ram, dir, virt) then Reached(ram, dir, ram[Cell(dir, DirectoryIndex(virt))].frame)
       else Fresh(ram, dir, f) && Reached(ram, dir, f)
  }

  /** Memory outside the slot and the new table is as before, but for the first entry of `spill`. */
  ghost predicate Kept(ram: seq<Entry>, r: seq<Entry>, dir: Frame, f: Frame, virt: u32, spill: Option<Frame>)
    requires Full(ram) && Full(r)
  {
    forall g: Frame, i ::
      && 0 <= i < 1024 && g != f && (g != dir || i != DirectoryIndex(virt)) && (i == 0 ==> spill != Some(g))
      ==> r[Cell(g, i)] == ram[Cell(g, i)]
  }

  lemma WipedKept(fill: Form, ram: seq<Entry>, f: Frame, g: Frame, i: nat)
    requires Full(ram) && g != f && i < 1024
    ensures Wiped(fill, ram, f)[Cell(g, i)] == ram[Cell(g, i)]
  {
    assert Cell(g, i) / 1024 == g;
  }

  lemma EnteredKept(fill: Form, ram: seq<Entry>, dir: Frame, f: Frame, phys: u32, virt: u32)
    requires Full(ram) && f != dir
    ensures Kept(ram, Entered(Wiped(fill, ram, f), dir, f, f, phys, virt), dir, f, virt, None)
  {
    forall g: Frame, i | 0 <= i < 1024 && g != f && (g != dir || i != DirectoryIndex(virt))
      ensures Entered(Wiped(fill, ram, f), dir, f, f, phys, virt)[Cell(g, i)] == ram[Cell(g, i)]
    {
      WipedKept(fill, ram, f, g, i);
    }
  }

  lemma EnteredTable(fill: Form, ram: seq<Entry>, dir: Frame, f: Frame, phys: u32, virt: u32)
    requires Full(ram) && f != dir
    ensures var r := Entered(Wiped(fill, ram, f), dir, f, f, phys, virt);
      forall i :: 0 < i < 1024 && i != TableIndex(virt) ==> r[Cell(f, i)] == ZERO
  {
    forall i | 0 < i < 1024
      ensures Wiped(fill, ram, f)[Cell(f, i)] == ZERO
    {
      WipedEntry(fill, ram, f, i);
    }
  }

  /** The slot, the leaf, and the rest of a new table behind its first entry. */
  ghost predicate TableMade(r: seq<Entry>, dir: Frame, f: Frame, phys: u32, virt: u32)
    requires Full(r)
  {
    && r[Cell(dir, DirectoryIndex(virt))] == Entry(true, true, f)
    && r[Cell(f, TableIndex(virt))] == Entry(true, true, phys / 0x1000)
    && forall i :: 0 < i < 1024 && i != TableIndex(virt) ==> r[Cell(f, i)] == ZERO
  }

  lemma EnteredStores(fill: Form, ram: seq<Entry>, dir: Frame, f: Frame, phys: u32, virt: u32)
    requires Full(ram) && f != dir
    ensures var r := Entered(Wiped(fill, ram, f), dir, f, f, phys, virt);
      TableMade(r, dir, f, phys, virt) && Kept(ram, r, dir, f, virt, None)
  {
    EnteredKept(fill, ram, dir, f, phys, virt);
    EnteredTable(fill, ram, dir, f, phys, virt);
  }

  lemma RestStores(fill: Form, ram: seq<Entry>, dir: Frame, f: Frame, phys: u32, virt: u32)
    requires Full(ram) && Sound(ram, dir) && !HasTable(ram, dir, virt) && Fresh(ram, dir, f)
    requires Rest(fill, ram, dir, f, phys, virt).Some?
    requires Walk(ram, dir, Phys2Virt(f)).None? || Reached(ram, dir, f)
    requires Walk(ram, dir, Phys2Virt(dir)).None? || Reached(ram, dir, dir)
    ensures var r := Rest(fill, ram, dir, f, phys, virt).value;
      TableMade(r, dir, f, phys, virt) && Kept(ram, r, dir, f, virt, None)
  {
    if Walk(ram, dir, Phys2Virt(f)).None? {
      WipeFaults(fill, ram, Tables(dir), f);
    } else if Walk(ram, dir, Phys2Virt(dir)).None? {
      RestFaults(fill, ram, dir, f, phys, virt);
    } else {
      RestIs(fill, ram, dir, f, f, phys, virt);
      EnteredStores(fill, ram, dir, f, phys, virt);
    }
  }

  lemma KeptBehind(ram: seq<Entry>, r: seq<Entry>, dir: Frame, f: Frame, virt: u32, h: Frame)
    requires Full(ram) && Full(r) && Kept(Spilled(ram, h), r, dir, f, virt, None)
    ensures Kept(ram, r, dir, f, virt, Some(h))
  {
  }

  /** mapPage without a table for the page. */
  lemma NewTableStores(fill: Form, ram: seq<Entry>, dir: Frame, f: Frame, phys: u32, virt: u32)
    requires Full(ram) && Sound(ram, dir) && !HasTable(ram, dir, virt) && Fresh(ram, dir, f)
    requires Reached(ram, dir, dir) && Reached(ram, dir, f) && MapPage(fill, ram, dir, f, phys, virt).Some?
    ensures var r := MapPage(fill, ram, dir, f, phys, virt).value;
      && TableMade(r, dir, f, phys, virt)
      && Kept(ram, r, dir, f, virt, if fill.Written? then Walk(ram, dir, Phys2Virt(f + 1)) else None)
  {
    if fill.Intended? {
      RestStores(fill, ram, dir, f, phys, virt);
    } else {
      var h := Walk(ram, dir, Phys2Virt(f + 1)).value;
      SpilledIs(ram, dir, h);
      RestStores(fill, Spilled(ram, h), dir, f, phys, virt);
      KeptBehind(ram, MapPage(fill, ram, dir, f, phys, virt).value, dir, f, virt, h);
    }
  }

  /** What mapPage leaves in memory if it ends without a fault: the leaf, and for a new table an
      entry for it in the directory, all present and writable, and zeroes in the rest of the table
      behind its first entry. No other entry of memory changes but the first one behind the table. */
  lemma MapPageStores(fill: Form, ram: seq<Entry>, dir: Frame, f: Frame, phys: u32, virt: u32)
    requires Full(ram) && Found(ram, dir, f, virt) && MapPage(fill, ram, dir, f, phys, virt).Some?
    ensures var r := MapPage(fill, ram, dir, f, phys, virt).value;
      var slot := r[Cell(dir, DirectoryIndex(virt))];
      && slot.present && r[Cell(slot.frame, TableIndex(virt))] == Entry(true, true, phys / 0x1000)
      && if HasTable(ram, dir, virt)
         then r == ram[Cell(slot.frame, TableIndex(virt)) := Entry(true, true, phys / 0x1000)]
         else
           && slot == Entry(true, true, f)
           && (forall i :: 0 < i < 1024 && i != TableIndex(virt) ==> r[Cell(f, i)] == Entry(false, false, 0))
           && forall g: Frame, i ::
                && 0 <= i < 1024 && g != f && (g != dir || i != DirectoryIndex(virt))
                && (fill.Written? && i == 0 ==> Walk(ram, dir, Phys2Virt(f + 1)) != Some(g))
                ==> r[Cell(g, i)] == ram[Cell(g, i)]
  {
    if HasTable(ram, dir, virt) {
      LeafWorks(fill, ram, dir, f, phys, virt);
    } else {
      NewTableStores(fill, ram, dir, f, phys, virt);
    }
  }

  /** After a map update the tables are reached exactly if the request keeps them so. */
  lemma KeepsIff(ram: seq<Entry>, after: seq<Entry>, dir: Frame, tables: set<nat>, phys: u32, virt: u32)
    requires Full(ram) && Full(after) && AllReached(ram, dir, tables) && Refines(ram, after, dir, phys, virt)
    ensures AllReached(after, dir, tables) <==> Keeps(tables, phys, virt)
  {
    forall f: Frame | f in tables
      ensures Reached(after, dir, f) <==> (SamePage(Phys2Virt(f), virt) ==> phys / 0x1000 == f)
    {
      assert Reached(ram, dir, f);
    }
  }

  /** A slot without a table holds none of the pages where the kernel finds something. */
  lemma EmptySlot(ram: seq<Entry>, dir: Frame, v: u32, virt: u32)
    requires Full(ram) && !HasTable(ram, dir, virt) && Walk(ram, dir, v).Some?
    ensures DirectoryIndex(v) != DirectoryIndex(virt) && !SamePage(v, virt)
  {
    IndicesIdentifyPage(v, virt);
  }

  lemma SlotBase(virt: u32) returns (base: u32)
    ensures DirectoryIndex(base) == DirectoryIndex(virt) && TableIndex(base) == 0
  {
    base := virt / 0x40_0000 * 0x40_0000;
  }

  /** What is left of mapPage behind a first store that took no page away. */
  lemma RestRefines(fill: Form, ram: seq<Entry>, spilled: seq<Entry>, dir: Frame, f: Frame, phys: u32, virt: u32)
    requires Full(ram) && Full(spilled) && Sound(spilled, dir) && Fresh(spilled, dir, f)
    requires !HasTable(ram, dir, virt) && !HasTable(spilled, dir, virt)
    requires Reached(ram, dir, dir) && Reached(ram, dir, f)
    requires forall v: u32 :: Walk(spilled, dir, v) == Walk(ram, dir, v)
    ensures var r := Rest(fill, spilled, dir, f, phys, virt);
      && r.Some?
      && (Refines(ram, r.value, dir, phys, virt)
          <==> (fill.Written? && spilled[Cell(f, 0)].present ==> TableIndex(virt) == 0))
  {
    var r := Rest(fill, spilled, dir, f, phys, virt);
    RestWalk(fill, spilled, dir, f, phys, virt, virt);
    if fill.Written? && spilled[Cell(f, 0)].present && TableIndex(virt) != 0 {
      var base := SlotBase(virt);
      RestWalk(fill, spilled, dir, f, phys, virt, base);
      IndicesIdentifyPage(base, virt);
      assert Walk(ram, dir, base) == None;
    } else {
      forall v: u32
        ensures Walk(r.value, dir, v) == if SamePage(v, virt) then Some(phys / 0x1000) else Walk(ram, dir, v)
      {
        RestWalk(fill, spilled, dir, f, phys, virt, v);
        IndicesIdentifyPage(v, virt);
      }
    }
  }

  /** A page that the first store took away stays away, or the kernel faults. */
  lemma RestLoses(fill: Form, ram: seq<Entry>, dir: Frame, h: Frame, tables: set<nat>, f: Frame, phys: u32, virt: u32,
                  v: u32)
    requires Full(ram) && Ready(ram, dir, tables) && !HasTable(ram, dir, virt)
    requires Fresh(ram, dir, f) && Reached(ram, dir, f)
    requires Walk(Spilled(ram, h), dir, v) != Walk(ram, dir, v)
    ensures var r := Rest(fill, Spilled(ram, h), dir, f, phys, virt);
      r.None? || !Refines(ram, r.value, dir, phys, virt)
  {
    var s := Spilled(ram, h);
    SpilledIs(ram, dir, h);
    SpilledSound(ram, dir, h, tables, f);
    assert Reached(ram, dir, dir);
    if !Reached(s, dir, f) {
      WipeFaults(fill, s, Tables(dir), f);
    } else if !Reached(s, dir, dir) {
      RestFaults(fill, s, dir, f, phys, virt);
    } else {
      EmptySlot(ram, dir, v, virt);
      RestWalk(fill, s, dir, f, phys, virt, v);
    }
  }

  /** A granted frame that the kernel does not find where it looks for it: it faults, or that
      frame is still not found afterwards. */
  lemma UnreachedFails(fill: Form, ram: seq<Entry>, dir: Frame, tables: set<nat>, f: Frame, phys: u32, virt: u32)
    requires Full(ram) && Ready(ram, dir, tables) && !HasTable(ram, dir, virt) && !Reached(ram, dir, f)
    ensures !Works(ram, MapPage(fill, ram, dir, f, phys, virt), dir, tables + {f}, phys, virt)
  {
    assert Reached(ram, dir, dir);
    var r := MapPage(fill, ram, dir, f, phys, virt);
    if Walk(ram, dir, Phys2Virt(f)).None? {
      UnmappedFaults(fill, ram, dir, f);
    } else if r.Some? && Refines(ram, r.value, dir, phys, virt) {
      StillUnreached(ram, r.value, dir, f, phys, virt);
    }
  }

  lemma StillUnreached(ram: seq<Entry>, after: seq<Entry>, dir: Frame, f: Frame, phys: u32, virt: u32)
    requires Full(ram) && Full(after) && Refines(ram, after, dir, phys, virt) && !HasTable(ram, dir, virt)
    requires Walk(ram, dir, Phys2Virt(f)).Some? && !Reached(ram, dir, f)
    ensures !Reached(after, dir, f)
  {
    EmptySlot(ram, dir, Phys2Virt(f), virt);
  }

  lemma UnmappedFaults(fill: Form, ram: seq<Entry>, dir: Frame, f: Frame)
    requires Full(ram) && Walk(ram, dir, Phys2Virt(f)).None?
    ensures Memset(fill, ram, Tables(dir), f).None?
  {
    if fill.Intended? {
      WipeFaults(fill, ram, Tables(dir), f);
    } else {
      match Walk(ram, dir, Phys2Virt(f + 1))
      case None =>
      case Some(h) =>
        SpilledIs(ram, dir, h);
        WipeFaults(fill, Spilled(ram, h), Tables(dir), f);
    }
  }

  /** Behind a first store that took no page away, the rest works if no stale entry counts. */
  lemma RestWorks(fill: Form, ram: seq<Entry>, s: seq<Entry>, dir: Frame, tables: set<nat>, f: Frame, phys: u32,
                  virt: u32)
    requires Full(ram) && Full(s) && Sound(s, dir) && Owned(s, dir, tables) && Fresh(s, dir, f)
    requires !HasTable(ram, dir, virt) && !HasTable(s, dir, virt)
    requires AllReached(ram, dir, tables) && Reached(ram, dir, dir) && Reached(ram, dir, f)
    requires forall v: u32 :: Walk(s, dir, v) == Walk(ram, dir, v)
    requires fill.Written? && s[Cell(f, 0)].present ==> TableIndex(virt) == 0
    ensures var r := Rest(fill, s, dir, f, phys, virt);
      Works(ram, r, dir, tables + {f}, phys, virt) && Ready(r.value, dir, tables + {f})
  {
    RestRefines(fill, ram, s, dir, f, phys, virt);
    RestSound(fill, s, dir, f, phys, virt);
    NewReached(ram, Rest(fill, s, dir, f, phys, virt).value, dir, tables, f, phys, virt);
  }

  lemma NewReached(ram: seq<Entry>, after: seq<Entry>, dir: Frame, tables: set<nat>, f: Frame, phys: u32, virt: u32)
    requires Full(ram) && Full(after) && Refines(ram, after, dir, phys, virt) && !HasTable(ram, dir, virt)
    requires AllReached(ram, dir, tables) && Reached(ram, dir, f)
    ensures AllReached(after, dir, tables + {f})
  {
    forall g: Frame | g in tables + {f}
      ensures Reached(after, dir, g)
    {
      assert Reached(ram, dir, g);
      EmptySlot(ram, dir, Phys2Virt(g), virt);
    }
  }

  lemma HarmlessIs(ram: seq<Entry>, dir: Frame, f: Frame, phys: u32, virt: u32) returns (h: Frame)
    requires Full(ram) && Reached(ram, dir, dir) && !HasTable(ram, dir, virt) && Harmless(ram, dir, f, virt)
    ensures MapPage(Written, ram, dir, f, phys, virt) == Rest(Written, Spilled(ram, h), dir, f, phys, virt)
    ensures forall v: u32 :: Walk(Spilled(ram, h), dir, v) == Walk(ram, dir, v)
    ensures Spilled(ram, h)[Cell(f, 0)].present ==> TableIndex(virt) == 0
  {
    h := Walk(ram, dir, Phys2Virt(f + 1)).value;
  }

  lemma NewTableWorks(fill: Form, ram: seq<Entry>, dir: Frame, tables: set<nat>, f: Frame, phys: u32, virt: u32)
    requires Full(ram) && Ready(ram, dir, tables) && !HasTable(ram, dir, virt) && f !in tables
    requires Reached(ram, dir, f) && (fill.Written? ==> Harmless(ram, dir, f, virt))
    ensures var r := MapPage(fill, ram, dir, f, phys, virt);
      Works(ram, r, dir, tables + {f}, phys, virt) && Ready(r.value, dir, tables + {f})
  {
    OwnedFresh(ram, dir, tables, f);
    assert Reached(ram, dir, dir);
    if fill.Intended? {
      RestWorks(fill, ram, ram, dir, tables, f, phys, virt);
    } else {
      var h := HarmlessIs(ram, dir, f, phys, virt);
      SpilledSound(ram, dir, h, tables, f);
      SpilledIs(ram, dir, h);
      RestWorks(fill, ram, Spilled(ram, h), dir, tables, f, phys, virt);
    }
  }

  lemma NewTableFails(ram: seq<Entry>, dir: Frame, tables: set<nat>, f: Frame, phys: u32, virt: u32)
    requires Full(ram) && Ready(ram, dir, tables) && !HasTable(ram, dir, virt) && f !in tables
    requires Reached(ram, dir, f) && !Harmless(ram, dir, f, virt)
    ensures !Works(ram, MapPage(Written, ram, dir, f, phys, virt), dir, tables + {f}, phys, virt)
  {
    OwnedFresh(ram, dir, tables, f);
    assert Reached(ram, dir, dir);
    match Walk(ram, dir, Phys2Virt(f + 1))
    case None =>
    case Some(h) =>
      var s := Spilled(ram, h);
      assert MapPage(Written, ram, dir, f, phys, virt) == Rest(Written, s, dir, f, phys, virt);
      if v: u32 :| Walk(s, dir, v) != Walk(ram, dir, v) {
        RestLoses(Written, ram, dir, h, tables, f, phys, virt, v);
      } else {
        SpilledSound(ram, dir, h, tables, f);
        SpilledIs(ram, dir, h);
        RestRefines(Written, ram, s, dir, f, phys, virt);
      }
  }

  /** A call that works finds all it stores to. */
  lemma MapPageFinds(fill: Form, ram: seq<Entry>, dir: Frame, tables: set<nat>, f: Frame, phys: u32, virt: u32)
    requires Full(ram) && Ready(ram, dir, tables) && (HasTable(ram, dir, virt) || f !in tables)
    ensures var (r, after) := (MapPage(fill, ram, dir, f, phys, virt), TablesAfter(ram, dir, tables, f, virt));
      Works(ram, r, dir, after, phys, virt) ==>
        && Found(ram, dir, f, virt)
        && var t := r.value[Cell(dir, DirectoryIndex(virt))].frame;
           r.value[Cell(t, TableIndex(virt))] == Entry(true, true, phys / 0x1000)
  {
    var (r, after) := (MapPage(fill, ram, dir, f, phys, virt), TablesAfter(ram, dir, tables, f, virt));
    if Works(ram, r, dir, after, phys, virt) {
      assert Reached(ram, dir, dir);
      if HasTable(ram, dir, virt) {
        assert Reached(ram, dir, ram[Cell(dir, DirectoryIndex(virt))].frame);
      } else {
        OwnedFresh(ram, dir, tables, f);
        if !Reached(ram, dir, f) {
          UnreachedFails(fill, ram, dir, tables, f, phys, virt);
        }
      }
      MapPageStores(fill, ram, dir, f, phys, virt);
    }
  }

  /** From tables that are distinct and reached, mapPage ends without a fault, is a map update and
      leaves all tables reached, if and only if it is spared; and then they stay distinct and
      owned, and the leaf is present and writable. */
  lemma MapPageIff(fill: Form, ram: seq<Entry>, dir: Frame, tables: set<nat>, f: Frame, phys: u32, virt: u32)
    requires Full(ram) && Ready(ram, dir, tables) && (HasTable(ram, dir, virt) || f !in tables)
    ensures var (r, after) := (MapPage(fill, ram, dir, f, phys, virt), TablesAfter(ram, dir, tables, f, virt));
      && (Works(ram, r, dir, after, phys, virt) <==> Spared(fill, ram, dir, tables, f, phys, virt))
      && (Works(ram, r, dir, after, phys, virt) ==>
            && Ready(r.value, dir, after)
            && var t := r.value[Cell(dir, DirectoryIndex(virt))].frame;
               r.value[Cell(t, TableIndex(virt))] == Entry(true, true, phys / 0x1000))
  {
    MapPageFinds(fill, ram, dir, tables, f, phys, virt);
    if HasTable(ram, dir, virt) {
      LeafWorks(fill, ram, dir, f, phys, virt);
      KeepsIff(ram, MapPage(fill, ram, dir, f, phys, virt).value, dir, tables, phys, virt);
    } else if !Reached(ram, dir, f) {
      UnreachedFails(fill, ram, dir, tables, f, phys, virt);
    } else if fill.Written? && !Harmless(ram, dir, f, virt) {
      NewTableFails(ram, dir, tables, f, phys, virt);
    } else {
      NewTableWorks(fill, ram, dir, tables, f, phys, virt);
    }
  }

  // ----- Inside the kernel window

  lemma SameSound(ram: seq<Entry>, after: seq<Entry>, dir: Frame, f: Frame, virt: u32)
    requires Full(ram) && Full(after) && SameTables(ram, after, dir) && Sound(ram, dir) && Fresh(ram, dir, f)
    ensures Sound(after, dir) && Fresh(after, dir, f) && HasTable(after, dir, virt) == HasTable(ram, dir, virt)
  {
  }

  lemma SpilledOff(ram: seq<Entry>, dir: Frame, h: Frame, f: Frame)
    requires Full(ram) && Fresh(ram, dir, h) && f != h
    ensures SameTables(ram, Spilled(ram, h), dir) && Spilled(ram, h)[Cell(f, 0)] == ram[Cell(f, 0)]
  {
    OutsideTables(ram, Spilled(ram, h), dir, h);
  }

  /** With the window mapped, memset on a frame inside it finds that frame and the one behind. */
  lemma WindowSpill(ram: seq<Entry>, dir: Frame, f: Frame)
    requires Full(ram) && Window(ram, dir) && f < 1023 && Fresh(ram, dir, f + 1)
    ensures Reached(ram, dir, f) && Spill(ram, Tables(dir), f) == Some(Spilled(ram, f + 1))
    ensures SameTables(ram, Spilled(ram, f + 1), dir) && Spilled(ram, f + 1)[Cell(f, 0)] == ram[Cell(f, 0)]
  {
    var h: Frame := f + 1;
    WindowReaches(ram, dir, f);
    WindowReaches(ram, dir, h);
    SpilledOff(ram, dir, h, f);
  }

  /** So the stores go where they should: memory afterwards. */
  lemma WindowMaps(ram: seq<Entry>, dir: Frame, f: Frame, phys: u32, virt: u32)
    requires Full(ram) && Sound(ram, dir) && Window(ram, dir) && dir < 1024 && f < 1023
    requires !HasTable(ram, dir, virt) && Fresh(ram, dir, f) && Fresh(ram, dir, f + 1)
    ensures var s := Spilled(ram, f + 1);
      && MapPage(Written, ram, dir, f, phys, virt) == Rest(Written, s, dir, f, phys, virt)
      && Rest(Written, s, dir, f, phys, virt) == Some(Entered(Wiped(Written, s, f), dir, f, f, phys, virt))
      && Sound(s, dir) && Fresh(s, dir, f) && !HasTable(s, dir, virt) && Reached(s, dir, dir) && Reached(s, dir, f)
  {
    var s := Spilled(ram, f + 1);
    WindowReaches(ram, dir, dir);
    WindowSpill(ram, dir, f);
    SameSound(ram, s, dir, f, virt);
    RestIs(Written, s, dir, f, f, phys, virt);
  }

  /** A page outside the window is none where the kernel looks for a frame inside it. */
  lemma WindowKept(tables: set<nat>, phys: u32, virt: u32)
    requires !(KERNEL <= virt < HEAP) && forall g :: g in tables ==> g < 1024
    ensures Keeps(tables, phys, virt)
  {
    forall g: Frame | g in tables
      ensures !SamePage(Phys2Virt(g), virt)
    {
      assert g < 1024;
      assert Phys2Virt(g) == KERNEL + 0x1000 * g;
    }
  }

  /** A call is spared when the window is mapped, all tables lie in it, the page asked for does not,
      and the frame granted for a table lies in it too, with no table behind it and no stale first
      entry that counts. */
  lemma WindowSpares(ram: seq<Entry>, dir: Frame, tables: set<nat>, f: Frame, phys: u32, virt: u32)
    requires Full(ram) && Ready(ram, dir, tables) && Window(ram, dir) && forall g :: g in tables ==> g < 1024
    requires !(KERNEL <= virt < HEAP)
    requires HasTable(ram, dir, virt)
          || (f < 1023 && f + 1 !in tables && (ram[Cell(f, 0)].present ==> TableIndex(virt) == 0))
    ensures Spared(Written, ram, dir, tables, f, phys, virt)
  {
    if HasTable(ram, dir, virt) {
      WindowKept(tables, phys, virt);
    } else {
      OwnedFresh(ram, dir, tables, f + 1);
      WindowHarmless(ram, dir, f, virt);
    }
  }

  lemma WindowHarmless(ram: seq<Entry>, dir: Frame, f: Frame, virt: u32)
    requires Full(ram) && Window(ram, dir) && f < 1023 && Fresh(ram, dir, f + 1)
    requires ram[Cell(f, 0)].present ==> TableIndex(virt) == 0
    ensures Reached(ram, dir, f) && Harmless(ram, dir, f, virt)
  {
    WindowSpill(ram, dir, f);
  }

  /** And the window stays mapped. */
  lemma WindowStays(ram: seq<Entry>, after: seq<Entry>, dir: Frame, phys: u32, virt: u32)
    requires Full(ram) && Full(after) && Window(ram, dir) && Refines(ram, after, dir, phys, virt)
    requires !(KERNEL <= virt < HEAP)
    ensures Window(after, dir)
  {
  }

  /** With the window mapped, a stale first entry of the granted frame makes mapPage map a page that
      nobody asked for: asked for page 1 of an empty slot 0, it also maps page 0, to frame 0. */
  lemma StaleEntryBreaks(ram: seq<Entry>, dir: Frame, f: Frame)
    requires Full(ram) && Sound(ram, dir) && Window(ram, dir) && dir < 1024 && f < 1023
    requires !HasTable(ram, dir, 0x1000) && Fresh(ram, dir, f) && Fresh(ram, dir, f + 1) && ram[Cell(f, 0)].present
    ensures var r := MapPage(Written, ram, dir, f, 0x5000, 0x1000);
      r.Some? && Walk(ram, dir, 0) == None && Walk(r.value, dir, 0) == Some(0)
  {
    WindowMaps(ram, dir, f, 0x5000, 0x1000);
    assert Spilled(ram, f + 1)[Cell(f, 0)] == ram[Cell(f, 0)];
    StaleRest(Spilled(ram, f + 1), dir, f);
    PagesOfSlot0();
  }

  lemma PagesOfSlot0()
    ensures DirectoryIndex(0) == DirectoryIndex(0x1000) == 0 && TableIndex(0) == 0 && TableIndex(0x1000) == 1
  {
  }

  lemma StaleRest(s: seq<Entry>, dir: Frame, f: Frame)
    requires Full(s) && Sound(s, dir) && !HasTable(s, dir, 0x1000) && Fresh(s, dir, f)
    requires Reached(s, dir, dir) && Reached(s, dir, f) && s[Cell(f, 0)].present
    ensures var r := Rest(Written, s, dir, f, 0x5000, 0x1000); r.Some? && Walk(r.value, dir, 0) == Some(0)
  {
    PagesOfSlot0();
    RestWalk(Written, s, dir, f, 0x5000, 0x1000, 0);
  }

  // ----- Outside it

  /** A granted frame f that the kernel looks for on pages that lead to other frames g and h: memset
      and the leaf go there, and the page asked for stays unmapped, unless f should hold an entry
      for it already. */
  lemma Misdirected(ram: seq<Entry>, dir: Frame, f: Frame, g: Frame, h: Frame, phys: u32, virt: u32)
    requires Full(ram) && Sound(ram, dir) && Reached(ram, dir, dir) && !HasTable(ram, dir, virt)
    requires Walk(ram, dir, Phys2Virt(f)) == Some(g) && Walk(ram, dir, Phys2Virt(f + 1)) == Some(h)
    requires Fresh(ram, dir, f) && Fresh(ram, dir, g) && Fresh(ram, dir, h) && g != f && h != f
    requires !ram[Cell(f, TableIndex(virt))].present
    ensures var r := MapPage(Written, ram, dir, f, phys, virt);
      && r.Some?
      && r.value[Cell(g, TableIndex(virt))] == Entry(true, true, phys / 0x1000)
      && Walk(r.value, dir, virt) == None
  {
    var s := Spilled(ram, h);
    OutsideTables(ram, s, dir, h);
    SameSound(ram, s, dir, f, virt);
    SameSound(ram, s, dir, g, virt);
    RestIs(Written, s, dir, f, g, phys, virt);
    MisdirectedWalk(s, dir, f, g, phys, virt);
    assert Cell(f, TableIndex(virt)) != Cell(h, 0);
  }

  lemma MisdirectedWalk(s: seq<Entry>, dir: Frame, f: Frame, g: Frame, phys: u32, virt: u32)
    requires Full(s) && Sound(s, dir) && !HasTable(s, dir, virt) && Fresh(s, dir, f) && Fresh(s, dir, g) && g != f
    requires !s[Cell(f, TableIndex(virt))].present
    ensures Walk(Entered(Wiped(Written, s, g), dir, f, g, phys, virt), dir, virt) == None
  {
    var w := Wiped(Written, s, g);
    WipedTables(Written, s, dir, g);
    SameSound(s, w, dir, f, virt);
    SameSound(s, w, dir, g, virt);
    EnteredWalk(w, dir, f, g, phys, virt, virt);
    assert Cell(f, TableIndex(virt)) / 1024 == f;
  }
}
