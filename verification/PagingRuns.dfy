/** Whole runs of mapPage on frames that the page allocator grants, while other clients of the
    allocator do what they like with theirs. */
module PagingRuns {
  import opened Machine
  import opened Paging
  import opened PageMapping
  import opened VirtualMemory

  /** Physical memory, the frames in use, and those of them that hold the directory and its
      tables; or the end of the run in a page fault. */
  datatype Memory = Running(ram: seq<Entry>, used: set<nat>, tables: set<nat>) | Faulted

  datatype Event = Map(phys: u32, virt: u32) | Others

  /** The memory after mapPage, which made frame f a table if the page had none. */
  function Mapped(fill: Form, dir: Frame, s: Memory, f: Frame, phys: u32, virt: u32): Memory
    requires s.Running? && Full(s.ram)
  {
    match MapPage(fill, s.ram, dir, f, phys, virt)
    case None => Faulted
    case Some(r) =>
      if HasTable(s.ram, dir, virt) then s.(ram := r) else Running(r, s.used + {f}, s.tables + {f})
  }

  /** mapPage takes the first free frame if it needs a table. The other clients allocate and free
      frames other than the tables, and write to them as they please. */
  ghost predicate Next(fill: Form, dir: Frame, limit: nat, s: Memory, e: Event, t: Memory)
    requires s.Running? && Full(s.ram)
  {
    match e
    case Map(phys, virt) =>
      if HasTable(s.ram, dir, virt) then t == Mapped(fill, dir, s, 0, phys, virt)
      else exists f: Frame :: FirstFree(s.used, limit, f) && t == Mapped(fill, dir, s, f, phys, virt)
    case Others =>
      && t.Running? && Full(t.ram) && t.tables == s.tables && s.tables <= t.used
      && forall f: Frame, i :: f in s.tables && 0 <= i < 1024 ==> t.ram[Cell(f, i)] == s.ram[Cell(f, i)]
  }

  /** The directory and its tables are distinct and in use, and the kernel finds each of them where
      it looks for it. */
  ghost predicate Inv(dir: Frame, s: Memory) {
    s.Running? && Full(s.ram) && Ready(s.ram, dir, s.tables) && s.tables <= s.used
  }

  /** The condition for a call, on the frame that the allocator will grant. */
  ghost predicate SparedCall(fill: Form, dir: Frame, limit: nat, s: Memory, e: Event)
    requires s.Running? && Full(s.ram)
  {
    e.Map? ==>
      if HasTable(s.ram, dir, e.virt) then Keeps(s.tables, e.phys, e.virt)
      else forall f: Frame :: FirstFree(s.used, limit, f) ==> Spared(fill, s.ram, dir, s.tables, f, e.phys, e.virt)
  }

  /** What the event should do: no fault, the one page mapped or no page changed, and the tables
      still found. */
  ghost predicate Does(dir: Frame, s: Memory, e: Event, t: Memory)
    requires s.Running? && Full(s.ram)
  {
    && Inv(dir, t)
    && match e
       case Map(phys, virt) => Refines(s.ram, t.ram, dir, phys, virt)
       case Others => forall v: u32 :: Walk(t.ram, dir, v) == Walk(s.ram, dir, v)
  }

  lemma OthersDo(fill: Form, dir: Frame, limit: nat, s: Memory, t: Memory)
    requires Inv(dir, s) && Next(fill, dir, limit, s, Others, t)
    ensures Does(dir, s, Others, t)
  {
    forall v: u32
      ensures Walk(t.ram, dir, v) == Walk(s.ram, dir, v)
    {
      OwnedWalk(s.ram, t.ram, dir, s.tables, v);
    }
    OwnedWalk(s.ram, t.ram, dir, s.tables, 0);
    forall f: Frame | f in s.tables
      ensures Reached(t.ram, dir, f)
    {
      assert Reached(s.ram, dir, f);
    }
  }

  /** mapPage with frame f, which is no table because it is not in use. */
  lemma MappedDoes(fill: Form, dir: Frame, s: Memory, f: Frame, phys: u32, virt: u32)
    requires Inv(dir, s) && (HasTable(s.ram, dir, virt) || f !in s.used)
    ensures Does(dir, s, Event.Map(phys, virt), Mapped(fill, dir, s, f, phys, virt))
       <==> Spared(fill, s.ram, dir, s.tables, f, phys, virt)
  {
    MapPageIff(fill, s.ram, dir, s.tables, f, phys, virt);
  }

  /** A granted frame is in use by nobody, so it is no table: the event does what it should exactly
      when it is spared. */
  lemma NextDoes(fill: Form, dir: Frame, limit: nat, s: Memory, e: Event, t: Memory)
    requires Inv(dir, s) && Next(fill, dir, limit, s, e, t)
    ensures Does(dir, s, e, t) <==> SparedCall(fill, dir, limit, s, e)
  {
    match e
    case Map(phys, virt) =>
      if HasTable(s.ram, dir, virt) {
        MappedDoes(fill, dir, s, 0, phys, virt);
      } else {
        var f: Frame :| FirstFree(s.used, limit, f) && t == Mapped(fill, dir, s, f, phys, virt);
        MappedDoes(fill, dir, s, f, phys, virt);
        assert forall g: Frame :: FirstFree(s.used, limit, g) ==> g == f;
      }
    case Others =>
      OthersDo(fill, dir, limit, s, t);
  }

  ghost predicate RunsAt(fill: Form, dir: Frame, limit: nat, trace: seq<Memory>, events: seq<Event>, i: nat)
    requires i < |events| && |trace| == |events| + 1
  {
    trace[i].Running? && Full(trace[i].ram) && Next(fill, dir, limit, trace[i], events[i], trace[i + 1])
  }

  /** A run; only its last state may be the fault. */
  ghost predicate Run(fill: Form, dir: Frame, limit: nat, trace: seq<Memory>, events: seq<Event>) {
    && |trace| == |events| + 1
    && Inv(dir, trace[0])
    && forall i :: 0 <= i < |events| ==> RunsAt(fill, dir, limit, trace, events, i)
  }

  ghost predicate SparedAt(fill: Form, dir: Frame, limit: nat, trace: seq<Memory>, events: seq<Event>, i: nat)
    requires i < |events| && |trace| == |events| + 1
  {
    trace[i].Running? && Full(trace[i].ram) && SparedCall(fill, dir, limit, trace[i], events[i])
  }

  ghost predicate DoesAt(dir: Frame, trace: seq<Memory>, events: seq<Event>, i: nat)
    requires i < |events| && |trace| == |events| + 1
  {
    trace[i].Running? && Full(trace[i].ram) && Does(dir, trace[i], events[i], trace[i + 1])
  }

  /** The last request for the page of v decides. */
  function Latest(events: seq<Event>, v: u32, otherwise: Option<Frame>): Option<Frame> {
    if events == [] then otherwise
    else
      var last := events[|events| - 1];
      if last.Map? && SamePage(v, last.virt) then Some(last.phys / 0x1000)
      else Latest(events[..|events| - 1], v, otherwise)
  }

  lemma {:induction false} RunInv(fill: Form, dir: Frame, limit: nat, trace: seq<Memory>, events: seq<Event>, i: nat)
    requires Run(fill, dir, limit, trace, events) && i < |trace|
    requires forall k :: 0 <= k < i ==> SparedAt(fill, dir, limit, trace, events, k)
    ensures Inv(dir, trace[i])
  {
    if i > 0 {
      RunInv(fill, dir, limit, trace, events, i - 1);
      assert RunsAt(fill, dir, limit, trace, events, i - 1) && SparedAt(fill, dir, limit, trace, events, i - 1);
      NextDoes(fill, dir, limit, trace[i - 1], events[i - 1], trace[i - 1 + 1]);
    }
  }

  /** Over every run whose calls are spared, none faults, each page leads where the last request for
      it said, and pages never asked for lead where they led at the start, whatever other clients do
      with their frames. */
  lemma {:induction false} RunRefines(fill: Form, dir: Frame, limit: nat, trace: seq<Memory>, events: seq<Event>,
                                      i: nat, v: u32)
    requires Run(fill, dir, limit, trace, events) && i < |trace|
    requires forall k :: 0 <= k < i ==> SparedAt(fill, dir, limit, trace, events, k)
    ensures Inv(dir, trace[i])
    ensures Walk(trace[i].ram, dir, v) == Latest(events[..i], v, Walk(trace[0].ram, dir, v))
  {
    RunInv(fill, dir, limit, trace, events, i);
    if i > 0 {
      RunRefines(fill, dir, limit, trace, events, i - 1, v);
      assert RunsAt(fill, dir, limit, trace, events, i - 1) && SparedAt(fill, dir, limit, trace, events, i - 1);
      NextDoes(fill, dir, limit, trace[i - 1], events[i - 1], trace[i - 1 + 1]);
      assert events[..i][..i - 1] == events[..i - 1];
    }
  }

  /** A run does at every event what it should if and only if every call is spared. */
  lemma RunDoesIff(fill: Form, dir: Frame, limit: nat, trace: seq<Memory>, events: seq<Event>)
    requires Run(fill, dir, limit, trace, events)
    ensures (forall i :: 0 <= i < |events| ==> DoesAt(dir, trace, events, i))
       <==> (forall i :: 0 <= i < |events| ==> SparedAt(fill, dir, limit, trace, events, i))
  {
    if forall i :: 0 <= i < |events| ==> DoesAt(dir, trace, events, i) {
      forall i | 0 <= i < |events|
        ensures SparedAt(fill, dir, limit, trace, events, i)
      {
        assert i > 0 ==> DoesAt(dir, trace, events, i - 1);
        assert RunsAt(fill, dir, limit, trace, events, i) && DoesAt(dir, trace, events, i);
        NextDoes(fill, dir, limit, trace[i], events[i], trace[i + 1]);
      }
    }
    if forall i :: 0 <= i < |events| ==> SparedAt(fill, dir, limit, trace, events, i) {
      forall i | 0 <= i < |events|
        ensures DoesAt(dir, trace, events, i)
      {
        RunInv(fill, dir, limit, trace, events, i);
        assert RunsAt(fill, dir, limit, trace, events, i) && SparedAt(fill, dir, limit, trace, events, i);
        NextDoes(fill, dir, limit, trace[i], events[i], trace[i + 1]);
      }
    }
  }

  // ----- Runs inside the kernel window

  /** The window is mapped, and all tables lie in it. */
  ghost predicate InWindow(dir: Frame, s: Memory) {
    Inv(dir, s) && Window(s.ram, dir) && forall f :: f in s.tables ==> f < 1024
  }

  /** A call inside the window: it asks for a page outside it, and if it needs a table, the first
      free frame lies below 1023, with no table behind it and no stale first entry that counts. */
  ghost predicate WindowCall(dir: Frame, limit: nat, s: Memory, e: Event)
    requires s.Running? && Full(s.ram)
  {
    e.Map? ==>
      && !(KERNEL <= e.virt < HEAP)
      && (HasTable(s.ram, dir, e.virt) || forall f: Frame :: FirstFree(s.used, limit, f) ==>
            f < 1023 && f + 1 !in s.tables && (s.ram[Cell(f, 0)].present ==> TableIndex(e.virt) == 0))
  }

  /** The frame granted for such a call. */
  lemma WindowFrame(dir: Frame, s: Memory, f: Frame, phys: u32, virt: u32)
    requires InWindow(dir, s) && !(KERNEL <= virt < HEAP)
    requires HasTable(s.ram, dir, virt)
          || (f !in s.used && f < 1023 && f + 1 !in s.tables && (s.ram[Cell(f, 0)].present ==> TableIndex(virt) == 0))
    ensures Spared(Written, s.ram, dir, s.tables, f, phys, virt)
    ensures Does(dir, s, Event.Map(phys, virt), Mapped(Written, dir, s, f, phys, virt))
  {
    WindowSpares(s.ram, dir, s.tables, f, phys, virt);
    MappedDoes(Written, dir, s, f, phys, virt);
  }

  lemma WindowAfter(dir: Frame, s: Memory, f: Frame, phys: u32, virt: u32, t: Memory)
    requires InWindow(dir, s) && !(KERNEL <= virt < HEAP) && Does(dir, s, Event.Map(phys, virt), t)
    requires t.tables == s.tables || (f < 1024 && t.tables == s.tables + {f})
    ensures InWindow(dir, t)
  {
    WindowStays(s.ram, t.ram, dir, phys, virt);
  }

  lemma OthersStay(dir: Frame, limit: nat, s: Memory, t: Memory)
    requires InWindow(dir, s) && Next(Written, dir, limit, s, Others, t)
    ensures InWindow(dir, t)
  {
    OthersDo(Written, dir, limit, s, t);
  }

  /** Such a call is spared, and leaves the window as it is. */
  lemma WindowStep(dir: Frame, limit: nat, s: Memory, e: Event, t: Memory)
    requires InWindow(dir, s) && WindowCall(dir, limit, s, e) && Next(Written, dir, limit, s, e, t)
    ensures SparedCall(Written, dir, limit, s, e) && InWindow(dir, t)
  {
    match e
    case Map(phys, virt) =>
      if HasTable(s.ram, dir, virt) {
        WindowFrame(dir, s, 0, phys, virt);
        WindowAfter(dir, s, 0, phys, virt, t);
      } else {
        var f: Frame :| FirstFree(s.used, limit, f) && t == Mapped(Written, dir, s, f, phys, virt);
        WindowFrame(dir, s, f, phys, virt);
        WindowAfter(dir, s, f, phys, virt, t);
        assert forall g: Frame :: FirstFree(s.used, limit, g) ==> g == f;
      }
    case Others =>
      OthersStay(dir, limit, s, t);
  }

  ghost predicate WindowAt(dir: Frame, limit: nat, trace: seq<Memory>, events: seq<Event>, i: nat)
    requires i < |events| && |trace| == |events| + 1
  {
    trace[i].Running? && Full(trace[i].ram) && WindowCall(dir, limit, trace[i], events[i])
  }

  /** So is every run of such calls, from a state such as the start leaves. */
  lemma {:induction false} WindowRun(dir: Frame, limit: nat, trace: seq<Memory>, events: seq<Event>, i: nat)
    requires Run(Written, dir, limit, trace, events) && i < |trace| && InWindow(dir, trace[0])
    requires forall k :: 0 <= k < i ==> WindowAt(dir, limit, trace, events, k)
    ensures InWindow(dir, trace[i])
    ensures forall k :: 0 <= k < i ==> SparedAt(Written, dir, limit, trace, events, k)
  {
    if i > 0 {
      WindowRun(dir, limit, trace, events, i - 1);
      assert RunsAt(Written, dir, limit, trace, events, i - 1) && WindowAt(dir, limit, trace, events, i - 1);
      WindowStep(dir, limit, trace[i - 1], events[i - 1], trace[i - 1 + 1]);
      assert SparedAt(Written, dir, limit, trace, events, i - 1);
    }
  }

  // ----- The memory manager follows these runs

  ghost predicate Tracks(mm: MemoryManager, s: Memory)
    reads mm, mm.ram, mm.pmm.memoryMap
  {
    && mm.Valid() && mm.root == Tables(mm.currentPageDirectory)
    && s.Running? && s.ram == mm.ram[..] && s.used == mm.pmm.Used()
  }

  /** With a frame to spare, a call of mapPage in such a state is an event; it returns false exactly
      for a fault. */
  method MapPageCall(mm: MemoryManager, phys: u32, virt: u32, ghost n: nat, ghost s: Memory, ghost live: bool)
    returns (up: bool, ghost t: Memory)
    requires mm.Valid() && mm.root == Tables(mm.currentPageDirectory)
    requires live ==> Tracks(mm, s) && Inv(mm.currentPageDirectory, s) && n > 0 && mm.Plenty(n)
    modifies mm.ram, mm.pmm`usedBlocks, mm.pmm.memoryMap
    ensures live ==>
              && Next(Written, mm.currentPageDirectory, mm.pmm.Limit(), s, Event.Map(phys, virt), t)
              && (up <==> t.Running?)
              && (up ==> Tracks(mm, t) && mm.Plenty(n - 1))
  {
    ghost var dir, f := mm.currentPageDirectory, 0;
    assert live ==> Reached(s.ram, dir, dir);
    up, f := mm.MapPage(phys, virt, n);
    t := Faulted;
    if live {
      if HasTable(s.ram, dir, virt) {
        TableAnyway(s.ram, dir, f, phys, virt);
        f := 0;
      }
      t := Mapped(Written, dir, s, f, phys, virt);
    }
  }

  /** A granted frame plays no role where there is a table. */
  lemma TableAnyway(ram: seq<Entry>, dir: Frame, f: Frame, phys: u32, virt: u32)
    requires Full(ram) && Reached(ram, dir, dir) && HasTable(ram, dir, virt)
    ensures MapPage(Written, ram, dir, f, phys, virt) == MapPage(Written, ram, dir, 0, phys, virt)
  {
  }

  lemma RunSnoc(fill: Form, dir: Frame, limit: nat, trace: seq<Memory>, events: seq<Event>, e: Event, t: Memory)
    requires Run(fill, dir, limit, trace, events) && trace[|events|].Running? && Full(trace[|events|].ram)
    requires Next(fill, dir, limit, trace[|events|], e, t)
    ensures Run(fill, dir, limit, trace + [t], events + [e])
  {
    forall i | 0 <= i < |events + [e]|
      ensures RunsAt(fill, dir, limit, trace + [t], events + [e], i)
    {
      if i < |events| {
        assert RunsAt(fill, dir, limit, trace, events, i);
      }
    }
  }

  ghost predicate AllSpared(dir: Frame, limit: nat, trace: seq<Memory>, events: seq<Event>)
    requires |trace| == |events| + 1
  {
    forall i :: 0 <= i < |events| ==> SparedAt(Written, dir, limit, trace, events, i)
  }

  /** mapPage calls one after the other until one faults, with a frame to spare for each. The trace
      covers them all, or ends with the first call that is not spared; if all are, none faults, each
      page leads where the last request for it said, and the others where they led before. */
  method MapAll(mm: MemoryManager, events: seq<Event>, ghost s: Memory) returns (up: bool, ghost trace: seq<Memory>)
    requires Tracks(mm, s) && Inv(mm.currentPageDirectory, s)
    requires mm.Plenty(|events|) && forall i :: 0 <= i < |events| ==> events[i].Map?
    modifies mm.ram, mm.pmm`usedBlocks, mm.pmm.memoryMap
    ensures 1 <= |trace| <= |events| + 1 && trace[0] == s
    ensures var (dir, limit, done) := (mm.currentPageDirectory, mm.pmm.Limit(), events[..|trace| - 1]);
      && Run(Written, dir, limit, trace, done)
      && (AllSpared(dir, limit, trace, done) ==>
            && up && done == events && Tracks(mm, trace[|events|]) && Inv(dir, trace[|events|])
            && forall v: u32 :: Walk(mm.ram[..], dir, v) == Latest(events, v, Walk(s.ram, dir, v)))
  {
    ghost var dir, limit, live := mm.currentPageDirectory, mm.pmm.Limit(), true;
    trace, up := [s], true;
    for i := 0 to |events|
      invariant up && 1 <= |trace| <= i + 1 && trace[0] == s
      invariant Run(Written, dir, limit, trace, events[..|trace| - 1])
      invariant live ==> |trace| == i + 1 && Tracks(mm, trace[i]) && Inv(dir, trace[i]) && mm.Plenty(|events| - i)
      invariant !live ==> !AllSpared(dir, limit, trace, events[..|trace| - 1])
    {
      ghost var t;
      up, t := MapPageCall(mm, events[i].phys, events[i].virt, |events| - i, trace[|trace| - 1], live);
      if live {
        trace := Extend(dir, limit, trace, events, i, t);
        live := SparedAt(Written, dir, limit, trace, events[..i + 1], i);
      }
      if !up {
        return;
      }
    }
    if live {
      assert events[..|events|] == events;
      Finish(dir, limit, trace, events);
    }
  }

  /** One more event of the run, and what it means that it was spared. */
  lemma Extend(dir: Frame, limit: nat, trace: seq<Memory>, events: seq<Event>, i: nat, t: Memory)
    returns (longer: seq<Memory>)
    requires i < |events| && |trace| == i + 1 && Run(Written, dir, limit, trace, events[..i]) && Inv(dir, trace[i])
    requires Next(Written, dir, limit, trace[i], events[i], t)
    ensures longer == trace + [t] && Run(Written, dir, limit, longer, events[..i + 1])
    ensures SparedAt(Written, dir, limit, longer, events[..i + 1], i) ==> Inv(dir, t)
    ensures AllSpared(dir, limit, longer, events[..i + 1]) ==> SparedAt(Written, dir, limit, longer, events[..i + 1], i)
  {
    longer := trace + [t];
    RunSnoc(Written, dir, limit, trace, events[..i], events[i], t);
    assert events[..i + 1] == events[..i] + [events[i]];
    NextDoes(Written, dir, limit, trace[i], events[i], t);
  }

  lemma Finish(dir: Frame, limit: nat, trace: seq<Memory>, events: seq<Event>)
    requires Run(Written, dir, limit, trace, events)
    ensures AllSpared(dir, limit, trace, events) ==>
              && Inv(dir, trace[|events|])
              && forall v: u32 :: Walk(trace[|events|].ram, dir, v) == Latest(events, v, Walk(trace[0].ram, dir, v))
  {
    if AllSpared(dir, limit, trace, events) {
      assert events[..|events|] == events;
      RunInv(Written, dir, limit, trace, events, |events|);
      forall v: u32
        ensures Walk(trace[|events|].ram, dir, v) == Latest(events, v, Walk(trace[0].ram, dir, v))
      {
        RunRefines(Written, dir, limit, trace, events, |events|, v);
      }
    }
  }
}
