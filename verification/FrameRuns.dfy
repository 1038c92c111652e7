/** Whole runs of the page allocator: allocations of any size, and frees of runs that are live. */
module FrameRuns {
  import opened Machine
  import opened Bitmap
  import opened FrameAllocator

  /** What stays fixed: the frames the map can be read for, where runs may start, and the block
      total the counter is compared with. */
  datatype Config = Config(frames: nat, limit: nat, maxBlocks: u32)

  /** The marked frames, the counter, and the runs handed out and not yet given back. */
  datatype State = State(used: set<nat>, count: u32, live: map<nat, nat>)

  datatype Op = Allocate(n: u32) | Release(start: nat)

  function FreeCount(cfg: Config, s: State): u32 {
    Wrap(cfg.maxBlocks - s.count)
  }

  ghost predicate Next(cfg: Config, s: State, op: Op, t: State) {
    match op
    case Allocate(n) =>
      if Refused(s.used, cfg.frames, cfg.limit, FreeCount(cfg, s), n) then t == s
      else exists b: nat :: FirstStart(s.used, cfg.frames, cfg.limit, n, b) && t == Allocated(s, b, n)
    case Release(b) =>
      b in s.live && t == Released(s, b)
  }

  function Allocated(s: State, b: nat, n: u32): State {
    State(s.used + Interval(b, n), Wrap(s.count + n), s.live[b := n])
  }

  function Released(s: State, b: nat): State
    requires b in s.live
  {
    State(s.used - Interval(b, s.live[b]), Wrap(s.count - s.live[b]), s.live - {b})
  }

  ghost predicate Run(cfg: Config, trace: seq<State>, ops: seq<Op>) {
    && |trace| == |ops| + 1
    && trace[0].live == map[]
    && forall i :: 0 <= i < |ops| ==> Next(cfg, trace[i], ops[i], trace[i + 1])
  }

  /** The state of an allocator whose clients hold the runs in `live`. */
  ghost predicate Tracks(a: Allocator, cfg: Config, s: State)
    reads a, a.memoryMap
  {
    a.Valid() && cfg == Config(a.Size(), a.Limit(), a.maxBlocks) && s.used == a.Used() && s.count == a.usedBlocks
  }

  /** An allocation on the bitmap is a step, and the address it returns is that of the new run; with
      frame 0 in use, as after initialisation, it is 0 if and only if the request is refused. */
  method Allocate(a: Allocator, n: u32, ghost cfg: Config, ghost s: State) returns (address: u32, ghost t: State)
    requires Tracks(a, cfg, s) && Readable(s.used, cfg.frames, cfg.limit, n)
    modifies a.memoryMap, a`usedBlocks
    ensures Next(cfg, s, Op.Allocate(n), t) && Tracks(a, cfg, t)
    ensures Refused(s.used, cfg.frames, cfg.limit, FreeCount(cfg, s), n) ==> address == 0 && t == s
    ensures !Refused(s.used, cfg.frames, cfg.limit, FreeCount(cfg, s), n) ==>
              address % 4096 == 0 && address / 4096 !in s.used && t == Allocated(s, address / 4096, n)
    ensures 0 in s.used ==> (address == 0 <==> Refused(s.used, cfg.frames, cfg.limit, FreeCount(cfg, s), n))
  {
    address := a.GetFreePhysicalPage(n);
    assert n > 0 ==> address / 4096 in Interval(address / 4096, n);
    t := if Refused(s.used, cfg.frames, cfg.limit, FreeCount(cfg, s), n) then s else Allocated(s, address / 4096, n);
  }

  /** So is freeing a live run with its own length. */
  method Release(a: Allocator, address: u32, n: u32, ghost cfg: Config, ghost s: State) returns (ghost t: State)
    requires Tracks(a, cfg, s) && address / 4096 in s.live && s.live[address / 4096] == n
    requires address / 4096 + n <= cfg.frames
    modifies a.memoryMap, a`usedBlocks
    ensures Next(cfg, s, Op.Release(address / 4096), t) && Tracks(a, cfg, t)
  {
    a.FreePage(address, n);
    t := Released(s, address / 4096);
  }

  // ----- The invariant

  function LiveFrames(live: map<nat, nat>): set<nat> {
    set b, k | b in live && k in Interval(b, live[b]) :: k
  }

  lemma LiveAdd(live: map<nat, nat>, b: nat, n: nat)
    requires b !in live
    ensures LiveFrames(live[b := n]) == LiveFrames(live) + Interval(b, n)
  {
    var more := live[b := n];
    forall k | k in LiveFrames(more)
      ensures k in LiveFrames(live) + Interval(b, n)
    {
      var c :| c in more && k in Interval(c, more[c]);
      assert c != b ==> c in live && k in Interval(c, live[c]);
    }
    forall k | k in LiveFrames(live) + Interval(b, n)
      ensures k in LiveFrames(more)
    {
      if k in Interval(b, n) {
        assert b in more && k in Interval(b, more[b]);
      } else {
        var c :| c in live && k in Interval(c, live[c]);
        assert c in more && k in Interval(c, more[c]);
      }
    }
  }

  lemma LiveRemove(live: map<nat, nat>, b: nat)
    requires b in live
    ensures LiveFrames(live) == LiveFrames(live - {b}) + Interval(b, live[b])
  {
    assert (live - {b})[b := live[b]] == live;
    LiveAdd(live - {b}, b, live[b]);
  }

  /** The live runs are not empty, lie inside the map, and do not meet. */
  ghost predicate Apart(frames: nat, live: map<nat, nat>) {
    && (forall b :: b in live ==> live[b] > 0 && b + live[b] <= frames)
    && (forall b, c :: b in live && c in live && b < c ==> b + live[b] <= c)
  }

  /** The marked frames are exactly the reserved ones and those of the live runs. */
  ghost predicate Owns(reserved: set<nat>, s: State) {
    s.used == reserved + LiveFrames(s.live) && LiveFrames(s.live) !! reserved
  }

  ghost predicate Safe(cfg: Config, reserved: set<nat>, s: State) {
    Apart(cfg.frames, s.live) && Owns(reserved, s)
  }

  ghost predicate Inv(cfg: Config, start: State, s: State) {
    Safe(cfg, start.used, s) && Gap(s) == Gap(start)
  }

  /** Counter minus marked frames, modulo 2^32. */
  function Gap(s: State): u32 {
    Wrap(s.count - |s.used|)
  }

  lemma GapAllocated(s: State, b: nat, n: u32)
    requires |Allocated(s, b, n).used| == |s.used| + n
    ensures Gap(Allocated(s, b, n)) == Gap(s)
  {
    WrapSame(s.count, |s.used|, n);
  }

  lemma GapReleased(s: State, b: nat)
    requires b in s.live && |Released(s, b).used| + s.live[b] == |s.used|
    ensures Gap(Released(s, b)) == Gap(s)
  {
    var n: int := s.live[b];
    WrapSame(s.count, |s.used|, -n);
    assert s.count + -n == s.count - s.live[b];
  }

  lemma WrapSame(count: u32, u: int, n: int)
    ensures Wrap(Wrap(count + n) - (u + n)) == Wrap(count - u)
  {
    WrapAdd(count + n, -(u + n));
    assert Wrap(count + n) - (u + n) == Wrap(count + n) + -(u + n);
    assert count + n + -(u + n) == count - u;
  }

  lemma ApartAdd(frames: nat, live: map<nat, nat>, b: nat, n: nat)
    requires Apart(frames, live) && n > 0 && b + n <= frames && Interval(b, n) !! LiveFrames(live)
    ensures b !in live && Apart(frames, live[b := n])
  {
    assert b in Interval(b, n);
    forall c | c in live
      ensures c != b && (b < c ==> b + n <= c) && (c < b ==> c + live[c] <= b)
    {
      assert c in Interval(c, live[c]) && c in LiveFrames(live);
      assert b in Interval(c, live[c]) ==> b in LiveFrames(live);
      assert c !in Interval(b, n);
    }
  }

  lemma AllocatedSafe(cfg: Config, reserved: set<nat>, s: State, b: nat, n: u32)
    requires Safe(cfg, reserved, s) && n > 0 && Fits(s.used, cfg.frames, b, n)
    ensures b !in s.live && Safe(cfg, reserved, Allocated(s, b, n)) && |Allocated(s, b, n).used| == |s.used| + n
  {
    AllocatedApart(cfg.frames, reserved, s, b, n);
    AllocatedOwns(reserved, s, b, n);
  }

  lemma AllocatedApart(frames: nat, reserved: set<nat>, s: State, b: nat, n: u32)
    requires Apart(frames, s.live) && Owns(reserved, s) && n > 0 && Fits(s.used, frames, b, n)
    ensures b !in s.live && Apart(frames, Allocated(s, b, n).live)
  {
    ApartAdd(frames, s.live, b, n);
  }

  lemma AllocatedOwns(reserved: set<nat>, s: State, b: nat, n: u32)
    requires Owns(reserved, s) && b !in s.live && Interval(b, n) !! s.used
    ensures Owns(reserved, Allocated(s, b, n)) && |Allocated(s, b, n).used| == |s.used| + n
  {
    LiveAdd(s.live, b, n);
    Grow(reserved, LiveFrames(s.live), Interval(b, n));
    IntervalSize(b, n);
  }

  lemma Grow(reserved: set<nat>, live: set<nat>, run: set<nat>)
    requires live !! reserved && run !! reserved + live
    ensures reserved + live + run == reserved + (live + run) && live + run !! reserved
    ensures |reserved + live + run| == |reserved + live| + |run|
  {
  }

  lemma Shrink(reserved: set<nat>, rest: set<nat>, run: set<nat>)
    requires rest + run !! reserved && rest !! run
    ensures reserved + (rest + run) - run == reserved + rest && rest !! reserved
    ensures |reserved + (rest + run)| == |reserved + rest| + |run|
  {
    assert reserved + (rest + run) == (reserved + rest) + run;
  }

  lemma ApartRemove(frames: nat, live: map<nat, nat>, b: nat)
    requires Apart(frames, live) && b in live
    ensures Apart(frames, live - {b}) && Interval(b, live[b]) !! LiveFrames(live - {b})
  {
    forall k | k in LiveFrames(live - {b})
      ensures k !in Interval(b, live[b])
    {
      var c :| c in live - {b} && k in Interval(c, live[c]);
      assert c < b || b < c;
    }
  }

  lemma ReleasedSafe(cfg: Config, reserved: set<nat>, s: State, b: nat)
    requires Safe(cfg, reserved, s) && b in s.live
    ensures Safe(cfg, reserved, Released(s, b)) && |Released(s, b).used| + s.live[b] == |s.used|
  {
    ApartRemove(cfg.frames, s.live, b);
    ReleasedOwns(reserved, s, b);
  }

  lemma ReleasedOwns(reserved: set<nat>, s: State, b: nat)
    requires Owns(reserved, s) && b in s.live && Interval(b, s.live[b]) !! LiveFrames(s.live - {b})
    ensures Owns(reserved, Released(s, b)) && |Released(s, b).used| + s.live[b] == |s.used|
  {
    LiveRemove(s.live, b);
    Shrink(reserved, LiveFrames(s.live - {b}), Interval(b, s.live[b]));
    IntervalSize(b, s.live[b]);
  }

  lemma AllocatedInv(cfg: Config, start: State, s: State, b: nat, n: u32)
    requires Inv(cfg, start, s) && n > 0 && Fits(s.used, cfg.frames, b, n)
    ensures Inv(cfg, start, Allocated(s, b, n))
  {
    AllocatedSafe(cfg, start.used, s, b, n);
    GapAllocated(s, b, n);
  }

  lemma ReleasedInv(cfg: Config, start: State, s: State, b: nat)
    requires Inv(cfg, start, s) && b in s.live
    ensures Inv(cfg, start, Released(s, b))
  {
    ReleasedSafe(cfg, start.used, s, b);
    GapReleased(s, b);
  }

  lemma NextInv(cfg: Config, start: State, s: State, op: Op, t: State)
    requires Inv(cfg, start, s) && Next(cfg, s, op, t)
    ensures Inv(cfg, start, t)
  {
    match op
    case Allocate(n) =>
      if !Refused(s.used, cfg.frames, cfg.limit, FreeCount(cfg, s), n) {
        var b: nat :| FirstStart(s.used, cfg.frames, cfg.limit, n, b) && t == Allocated(s, b, n);
        AllocatedInv(cfg, start, s, b, n);
      }
    case Release(b) =>
      ReleasedInv(cfg, start, s, b);
  }

  lemma {:induction false} RunInv(cfg: Config, trace: seq<State>, ops: seq<Op>, i: nat)
    requires Run(cfg, trace, ops) && i < |trace|
    ensures Inv(cfg, trace[0], trace[i])
  {
    if i > 0 {
      RunInv(cfg, trace, ops, i - 1);
      NextInv(cfg, trace[0], trace[i - 1], ops[i - 1], trace[i - 1 + 1]);
    } else {
      assert LiveFrames(trace[0].live) == {};
    }
  }

  // ----- What it means

  /** Over every run: live runs are pairwise disjoint and inside the map, no reserved frame is
      ever handed out or lost, nothing leaks, and the counter and the bitmap keep their
      distance modulo 2^32. */
  lemma RunSafety(cfg: Config, trace: seq<State>, ops: seq<Op>, i: nat)
    requires Run(cfg, trace, ops) && i < |trace|
    ensures var (s, reserved) := (trace[i], trace[0].used);
      && (forall b, c :: b in s.live && c in s.live && b != c ==> Interval(b, s.live[b]) !! Interval(c, s.live[c]))
      && (forall b :: b in s.live ==> Interval(b, s.live[b]) !! reserved)
      && s.used == reserved + LiveFrames(s.live)
      && Gap(s) == Gap(trace[0])
  {
    RunInv(cfg, trace, ops, i);
    var s := trace[i];
    forall b, c | b in s.live && c in s.live && b != c
      ensures Interval(b, s.live[b]) !! Interval(c, s.live[c])
    {
      assert b < c || c < b;
    }
    forall b | b in s.live
      ensures Interval(b, s.live[b]) !! trace[0].used
    {
      assert Interval(b, s.live[b]) <= LiveFrames(s.live);
    }
  }

  /** With the first 2 MB reserved, as after initialisation, every address handed out is at or
      above 2 MB: the null address means failure and nothing else. */
  lemma NullMeansFailure(cfg: Config, trace: seq<State>, ops: seq<Op>, i: nat, b: nat)
    requires Run(cfg, trace, ops) && i < |trace| && Interval(0, 512) <= trace[0].used
    requires b in trace[i].live
    ensures b * 4096 >= 0x20_0000
  {
    RunInv(cfg, trace, ops, i);
    assert b in Interval(b, trace[i].live[b]) && b in LiveFrames(trace[i].live);
    assert b !in Interval(0, 512);
  }

  lemma GrantIsFresh(s: State, b: nat, n: u32)
    requires Interval(b, n) !! s.used && b !in s.live
    ensures var t := Allocated(s, b, n); t.used - Interval(b, n) == s.used && t.live - {b} == s.live
  {
  }

  /** Freeing a run just allocated restores bitmap, counter and books exactly. */
  lemma AllocateReleaseRestores(cfg: Config, start: State, s: State, b: nat, n: u32)
    requires Inv(cfg, start, s) && n > 0 && FirstStart(s.used, cfg.frames, cfg.limit, n, b)
    ensures Next(cfg, Allocated(s, b, n), Op.Release(b), s)
  {
    AllocatedApart(cfg.frames, start.used, s, b, n);
    GrantIsFresh(s, b, n);
    CountBack(s.count, n);
  }

  lemma CountBack(count: u32, n: u32)
    ensures Wrap(Wrap(count + n) - n) == count
  {
    var m: int := n;
    WrapAdd(count + m, -m);
    assert Wrap(count + m) - m == Wrap(count + m) + -m && count + m + -m == count;
    WrapId(count);
  }

  // ----- From initialisation on

  /** What the allocator's clients can rely on in one state. */
  ghost predicate Sane(reserved: set<nat>, s: State) {
    && (forall b, c :: b in s.live && c in s.live && b != c ==> Interval(b, s.live[b]) !! Interval(c, s.live[c]))
    && (forall b :: b in s.live ==> Interval(b, s.live[b]) !! reserved && b * 4096 >= 0x20_0000)
    && s.used == reserved + LiveFrames(s.live)
  }

  lemma RunSane(cfg: Config, trace: seq<State>, ops: seq<Op>, i: nat)
    requires Run(cfg, trace, ops) && i < |trace| && Interval(0, 512) <= trace[0].used
    ensures Sane(trace[0].used, trace[i])
  {
    RunSafety(cfg, trace, ops, i);
    forall b | b in trace[i].live
      ensures b * 4096 >= 0x20_0000
    {
      NullMeansFailure(cfg, trace, ops, i, b);
    }
  }

  lemma RunSnoc(cfg: Config, trace: seq<State>, ops: seq<Op>, op: Op, t: State)
    requires Run(cfg, trace, ops) && Next(cfg, trace[|ops|], op, t)
    ensures Run(cfg, trace + [t], ops + [op])
  {
    forall i | 0 <= i < |ops + [op]|
      ensures Next(cfg, (trace + [t])[i], (ops + [op])[i], (trace + [t])[i + 1])
    {
      if i < |ops| {
        assert Next(cfg, trace[i], ops[i], trace[i + 1]);
      }
    }
  }

  /** The clients' books: each address handed out and not given back, by frame. */
  ghost predicate Books(a: Allocator, cfg: Config, start: State, s: State, live: map<nat, nat>)
    reads a, a.memoryMap
  {
    && Tracks(a, cfg, s) && Inv(cfg, start, s) && 0 in start.used && s.live == live
    && forall b :: b in live ==> b < 0x10_0000 && live[b] < WORD
  }

  /** An allocation, entered in the books unless the address is null. */
  method Take(a: Allocator, n: u32, live: map<nat, nat>, ghost cfg: Config, ghost start: State, ghost s: State)
    returns (live': map<nat, nat>, ghost t: State)
    requires Books(a, cfg, start, s, live) && Readable(s.used, cfg.frames, cfg.limit, n)
    modifies a.memoryMap, a`usedBlocks
    ensures Next(cfg, s, Op.Allocate(n), t) && Books(a, cfg, start, t, live')
  {
    live' := live;
    assert 0 in s.used;
    var address;
    address, t := Allocate(a, n, cfg, s);
    NextInv(cfg, start, s, Op.Allocate(n), t);
    if address != 0 {
      live' := live[address / 4096 := n];
    }
  }

  /** A free of what is on the books. */
  method Give(a: Allocator, b: nat, live: map<nat, nat>, ghost cfg: Config, ghost start: State, ghost s: State)
    returns (live': map<nat, nat>, ghost t: State)
    requires Books(a, cfg, start, s, live) && b in live
    modifies a.memoryMap, a`usedBlocks
    ensures Next(cfg, s, Op.Release(b), t) && Books(a, cfg, start, t, live')
  {
    t := Release(a, 4096 * b, live[b], cfg, s);
    NextInv(cfg, start, s, Op.Release(b), t);
    live' := live - {b};
  }

  /** One call of a run. */
  method Call(a: Allocator, op: Op, live: map<nat, nat>, ghost cfg: Config, ghost start: State, ghost s: State)
    returns (live': map<nat, nat>, ghost t: State)
    requires Books(a, cfg, start, s, live) && (op.Release? ==> op.start in live)
    requires op.Allocate? ==> Readable(s.used, cfg.frames, cfg.limit, op.n)
    modifies a.memoryMap, a`usedBlocks
    ensures Next(cfg, s, op, t) && Books(a, cfg, start, t, live')
  {
    match op {
      case Allocate(n) => live', t := Take(a, n, live, cfg, start, s);
      case Release(b) => live', t := Give(a, b, live, cfg, start, s);
    }
  }

  /** Whole runs on the bitmap, from the state that initPMM leaves: frees of what is not on the books
      are skipped. Live page runs are disjoint, lie at or above 2 MB and off the frames reserved at
      the start, and nothing leaks. Requests are so short that the map can be read through every
      run the search tries. */
  method Play(a: Allocator, image: nat -> Region, length: u32, ops: seq<Op>)
    returns (live: map<nat, nat>, ghost trace: seq<State>, ghost done: seq<Op>)
    requires a.Valid() && a.memorySize / 4096 / 8 < 4 * a.memoryMap.Length && 512 <= a.Size()
    requires forall e :: e in Entries(image, 0, length) ==> e.Base() + e.Blocks() <= a.Size()
    requires forall op :: op in ops && op.Allocate? ==> a.Limit() + op.n <= a.Size()
    modifies a.memoryMap, a`usedBlocks, a`maxBlocks
    ensures var cfg := Config(a.Size(), a.Limit(), a.memorySize / 4096);
      && Run(cfg, trace, done) && |done| <= |ops|
      && Tracks(a, cfg, trace[|done|]) && trace[|done|].live == live
      && (forall f: nat :: f < 512 ==> f in trace[0].used)
      && (forall f: nat :: 512 <= f < a.Size() ==>
            (f in trace[0].used <==> Status(Entries(image, 0, length), f,
                                            Allocator.Prefilled(a.maxBlocks, f, f in old(a.Used())))))
      && forall i :: 0 <= i < |trace| ==> Sane(trace[0].used, trace[i])
  {
    a.InitPMM(image, length);
    ghost var cfg, start := Config(a.Size(), a.Limit(), a.maxBlocks), State(a.Used(), a.usedBlocks, map[]);
    live, trace, done := map[], [start], [];
    assert 0 in start.used;
    for i := 0 to |ops|
      invariant a.maxBlocks == a.memorySize / 4096
      invariant Run(cfg, trace, done) && trace[0] == start && |done| <= i
      invariant Books(a, cfg, start, trace[|done|], live)
    {
      if ops[i].Allocate? || ops[i].start in live {
        assert ops[i] in ops;
        ghost var t;
        live, t := Call(a, ops[i], live, cfg, start, trace[|done|]);
        RunSnoc(cfg, trace, done, ops[i], t);
        trace, done := trace + [t], done + [ops[i]];
      }
    }
    forall i | 0 <= i < |trace|
      ensures Sane(trace[0].used, trace[i])
    {
      RunSane(cfg, trace, done, i);
    }
  }
}
