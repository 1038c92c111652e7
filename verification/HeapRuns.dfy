/** Whole runs of the kernel heap: a client that only frees pointers it holds, and what it can
    rely on however its calls are interleaved. */
module HeapRuns {
  import opened Machine
  import opened HeapLayout

  datatype Op = Malloc(n: u32) | Release(p: int)

  /** The block list, the usage counter, and the client's books: every pointer it has been
      handed and not given back, with the size it asked for. */
  datatype State = State(blocks: seq<Block>, used: u32, held: map<int, nat>)

  function Start(start: int, memorySize: u32): State
    requires memorySize >= H
  {
    State([Block(start, memorySize - H, false)], 0, map[])
  }

  /** The block whose payload p points to, or |s|. */
  function At(s: seq<Block>, p: int): (k: nat)
    ensures k <= |s|
    ensures k < |s| ==> s[k].Payload() == p
    ensures forall i :: 0 <= i < k ==> s[i].Payload() != p
  {
    if s == [] || s[0].Payload() == p then 0 else 1 + At(s[1..], p)
  }

  function Step(test: Form, memorySize: u32, st: State, op: Op): State {
    match op
    case Malloc(n) =>
      if Accepts(st.blocks, st.used, memorySize, n) then
        var k := FirstFit(st.blocks, n);
        State(Split(st.blocks, k, n), Wrap(st.used + n + H), st.held[st.blocks[k].Payload() := n])
      else st
    case Release(p) =>
      var k := At(st.blocks, p);
      if k < |st.blocks| then st.(blocks := Free(test, st.blocks, k), held := st.held - {p}) else st
  }

  /** The client frees only pointers it holds. */
  predicate Held(st: State, op: Op) {
    op.Release? ==> op.p in st.held
  }

  /** If malloc splits, the header of the remainder fits. */
  predicate Fits(memorySize: u32, st: State, op: Op) {
    op.Malloc? && Accepts(st.blocks, st.used, memorySize, op.n) ==>
      op.n + H <= st.blocks[FirstFit(st.blocks, op.n)].size
  }

  predicate Allowed(memorySize: u32, st: State, op: Op) {
    Held(st, op) && Fits(memorySize, st, op)
  }

  function Run(test: Form, memorySize: u32, st: State, ops: seq<Op>): State
    decreases |ops|
  {
    if ops == [] then st else Run(test, memorySize, Step(test, memorySize, st, ops[0]), ops[1..])
  }

  predicate AllowedRun(test: Form, memorySize: u32, st: State, ops: seq<Op>)
    decreases |ops|
  {
    ops == [] ||
    (Allowed(memorySize, st, ops[0]) && AllowedRun(test, memorySize, Step(test, memorySize, st, ops[0]), ops[1..]))
  }

  predicate HeldRun(test: Form, memorySize: u32, st: State, ops: seq<Op>)
    decreases |ops|
  {
    ops == [] || (Held(st, ops[0]) && HeldRun(test, memorySize, Step(test, memorySize, st, ops[0]), ops[1..]))
  }

  /** The chunks tile the region at the start of the run and after each call. */
  ghost predicate Tiled(test: Form, start: int, memorySize: u32, st: State, ops: seq<Op>)
    decreases |ops|
  {
    && Tiles(st.blocks, start, start + memorySize)
    && (ops == [] || Tiled(test, start, memorySize, Step(test, memorySize, st, ops[0]), ops[1..]))
  }

  /** The call frees a block with a free successor that is not the last block: line 96 then has a
      back link to set. */
  predicate Relinks(st: State, op: Op) {
    op.Release? && var k := At(st.blocks, op.p); k + 2 < |st.blocks| && !st.blocks[k + 1].live
  }

  /** Line 96 never sets a wrong back link: it is as intended, or has nothing to set. */
  predicate Quiet(link: Form, test: Form, memorySize: u32, st: State, ops: seq<Op>)
    decreases |ops|
  {
    || ops == []
    || ((link.Written? ==> !Relinks(st, ops[0]))
        && Quiet(link, test, memorySize, Step(test, memorySize, st, ops[0]), ops[1..]))
  }

  // ----- The invariant

  /** Block b serves the held pointer p with at least the bytes asked for; under the intended
      test with exactly those. */
  ghost predicate Serves(test: Form, b: Block, p: int, n: nat) {
    b.live && b.Payload() == p && b.size >= n && (test.Intended? ==> b.size == n)
  }

  ghost predicate Covers(test: Form, s: seq<Block>, held: map<int, nat>) {
    && (forall p :: p in held ==> exists b :: b in s && Serves(test, b, p, held[p]))
    && (forall b :: b in s && b.live ==> b.Payload() in held)
  }

  ghost predicate Inv(test: Form, start: int, memorySize: u32, st: State) {
    && Tiles(st.blocks, start, start + memorySize)
    && Covers(test, st.blocks, st.held)
    && (test.Intended? ==> Coalesced(st.blocks))
    && st.used < memorySize
  }

  lemma Distinct(s: seq<Block>, start: int, end: int, i: nat, j: nat)
    requires Tiles(s, start, end) && i < |s| && j < |s| && s[i].addr == s[j].addr
    ensures i == j
  {
    if i < j {
      InOrder(s, start, end, i, j);
    } else if j < i {
      InOrder(s, start, end, j, i);
    }
  }

  lemma AtLive(test: Form, st: State, start: int, memorySize: u32, p: int)
    requires Inv(test, start, memorySize, st) && p in st.held
    ensures var k := At(st.blocks, p); k < |st.blocks| && Serves(test, st.blocks[k], p, st.held[p])
  {
    var b :| b in st.blocks && Serves(test, b, p, st.held[p]);
    var i :| 0 <= i < |st.blocks| && st.blocks[i] == b;
    var k := At(st.blocks, p);
    Distinct(st.blocks, start, start + memorySize, i, k);
  }

  lemma SplitCovers(test: Form, s: seq<Block>, start: int, end: int, held: map<int, nat>, i: nat, n: nat)
    requires Tiles(s, start, end) && Covers(test, s, held) && i < |s| && !s[i].live
    ensures Covers(test, Split(s, i, n), held[s[i].Payload() := n])
  {
    var t := Split(s, i, n);
    var after := held[s[i].Payload() := n];
    forall p | p in after
      ensures exists b :: b in t && Serves(test, b, p, after[p])
    {
      if p == s[i].Payload() {
        assert t[i] in t && Serves(test, t[i], p, n);
      } else {
        var b :| b in s && Serves(test, b, p, held[p]);
        var k :| 0 <= k < |s| && s[k] == b;
        assert b == t[if k < i then k else k + 1];
      }
    }
  }

  /** A live block other than the freed one keeps its address and does not shrink. */
  lemma FreeKeeps(test: Form, s: seq<Block>, i: nat, k: nat) returns (m: nat)
    requires i < |s| && k < |s| && k != i && s[k].live
    ensures var t := Free(test, s, i);
            m < |t| && t[m].live && t[m].addr == s[k].addr && t[m].size >= s[k].size
            && (test.Intended? ==> t[m] == s[k])
  {
    var (r, c) := Backward(test, s, i, i - 1);
    var t := Forward(r, c);
    if k < i {
      m := k;
    } else {
      assert r[k - (|s| - |r|)] == s[k];
      m := k - (|s| - |t|);
      assert t[m] == s[k];
    }
  }

  /** And no live block appears: each one left was live before, at the same address. */
  lemma FreeFrom(test: Form, s: seq<Block>, i: nat, m: nat) returns (k: nat)
    requires i < |s| && s[i].live
    requires m < |Free(test, s, i)| && Free(test, s, i)[m].live
    ensures k < |s| && k != i && s[k].live && s[k].addr == Free(test, s, i)[m].addr
  {
    var (r, c) := Backward(test, s, i, i - 1);
    var t := Forward(r, c);
    if m <= c {
      k := m;
    } else {
      k := m + (|s| - |t|);
      assert t[m] == r[m + (|r| - |t|)] == s[k];
    }
  }

  lemma FreeCovers(test: Form, s: seq<Block>, start: int, end: int, held: map<int, nat>, i: nat)
    requires Tiles(s, start, end) && Covers(test, s, held) && i < |s| && s[i].live
    ensures Covers(test, Free(test, s, i), held - {s[i].Payload()})
  {
    var t := Free(test, s, i);
    var after := held - {s[i].Payload()};
    forall p | p in after
      ensures exists b :: b in t && Serves(test, b, p, after[p])
    {
      var b :| b in s && Serves(test, b, p, held[p]);
      var k :| 0 <= k < |s| && s[k] == b;
      var m := FreeKeeps(test, s, i, k);
      assert t[m] in t && Serves(test, t[m], p, after[p]);
    }
    forall b | b in t && b.live
      ensures b.Payload() in after
    {
      var m :| 0 <= m < |t| && t[m] == b;
      var k := FreeFrom(test, s, i, m);
      assert s[k] in s;
      if s[k].addr == s[i].addr {
        Distinct(s, start, end, i, k);
      }
    }
  }

  lemma MallocInv(test: Form, start: int, memorySize: u32, st: State, n: u32)
    requires Inv(test, start, memorySize, st) && Allowed(memorySize, st, Malloc(n))
    ensures Inv(test, start, memorySize, Step(test, memorySize, st, Malloc(n)))
  {
    if Accepts(st.blocks, st.used, memorySize, n) {
      var s, k := st.blocks, FirstFit(st.blocks, n);
      SplitTiles(s, start, start + memorySize, k, n);
      SplitCovers(test, s, start, start + memorySize, st.held, k, n);
      if test.Intended? {
        SplitCoalesced(s, k, n);
      }
    }
  }

  lemma ReleaseInv(test: Form, start: int, memorySize: u32, st: State, p: int)
    requires Inv(test, start, memorySize, st) && p in st.held
    ensures Inv(test, start, memorySize, Step(test, memorySize, st, Release(p)))
  {
    AtLive(test, st, start, memorySize, p);
    var s, k := st.blocks, At(st.blocks, p);
    FreeTiles(test, s, start, start + memorySize, k);
    FreeCovers(test, s, start, start + memorySize, st.held, k);
    if test.Intended? {
      FreeCoalesced(s, k);
    }
  }

  /** A call on held pointers keeps the invariant, and with it the tiling, if and only if the header
      of the remainder fits. */
  lemma StepInv(test: Form, start: int, memorySize: u32, st: State, op: Op)
    requires Inv(test, start, memorySize, st) && Held(st, op)
    ensures Inv(test, start, memorySize, Step(test, memorySize, st, op)) <==> Fits(memorySize, st, op)
    ensures Tiles(Step(test, memorySize, st, op).blocks, start, start + memorySize) <==> Fits(memorySize, st, op)
  {
    match op
    case Malloc(n) =>
      if Fits(memorySize, st, op) {
        MallocInv(test, start, memorySize, st, n);
      } else {
        SplitTiles(st.blocks, start, start + memorySize, FirstFit(st.blocks, n), n);
      }
    case Release(p) =>
      ReleaseInv(test, start, memorySize, st, p);
  }

  /** A run that frees only held pointers keeps the region tiled throughout if and only if every
      split header fits; and then it keeps the invariant. */
  lemma {:induction false} RunInv(test: Form, start: int, memorySize: u32, st: State, ops: seq<Op>)
    requires Inv(test, start, memorySize, st) && HeldRun(test, memorySize, st, ops)
    ensures Tiled(test, start, memorySize, st, ops) <==> AllowedRun(test, memorySize, st, ops)
    ensures AllowedRun(test, memorySize, st, ops) ==> Inv(test, start, memorySize, Run(test, memorySize, st, ops))
    decreases |ops|
  {
    if ops != [] {
      var after := Step(test, memorySize, st, ops[0]);
      StepInv(test, start, memorySize, st, ops[0]);
      if Fits(memorySize, st, ops[0]) {
        RunInv(test, start, memorySize, after, ops[1..]);
      } else {
        assert !Tiled(test, start, memorySize, after, ops[1..]);
      }
    }
  }

  lemma StartInv(test: Form, start: int, memorySize: u32)
    requires memorySize >= H
    ensures Inv(test, start, memorySize, Start(start, memorySize))
  {
  }

  // ----- What the client can rely on

  /** malloc never hands out a pointer that is held. */
  lemma GrantIsNew(test: Form, start: int, memorySize: u32, st: State, n: u32)
    requires Inv(test, start, memorySize, st) && Accepts(st.blocks, st.used, memorySize, n)
    ensures st.blocks[FirstFit(st.blocks, n)].Payload() !in st.held
  {
    var k := FirstFit(st.blocks, n);
    var p := st.blocks[k].Payload();
    if p in st.held {
      AtLive(test, st, start, memorySize, p);
      Distinct(st.blocks, start, start + memorySize, k, At(st.blocks, p));
    }
  }

  /** Block b is still there: live, at its address, and no smaller. */
  ghost predicate Stays(s: seq<Block>, b: Block) {
    exists c :: c in s && c.live && c.addr == b.addr && c.size >= b.size
  }

  /** One call does right by what is held: a granted pointer is not one of them, a freed one is
      taken off the books and no other, and every live block but the freed one stays. */
  ghost predicate Respects(st: State, op: Op, after: State) {
    && (forall b :: b in st.blocks && b.live && (op.Malloc? || b.Payload() != op.p) ==> Stays(after.blocks, b))
    && match op
       case Malloc(n) => after == st || exists p :: p !in st.held && after.held == st.held[p := n]
       case Release(p) => after.held == st.held - {p}
  }

  /** And so does every call of a run. */
  ghost predicate RunRespects(test: Form, memorySize: u32, st: State, ops: seq<Op>)
    decreases |ops|
  {
    || ops == []
    || (Respects(st, ops[0], Step(test, memorySize, st, ops[0]))
        && RunRespects(test, memorySize, Step(test, memorySize, st, ops[0]), ops[1..]))
  }

  lemma MallocRespects(test: Form, start: int, memorySize: u32, st: State, n: u32)
    requires Inv(test, start, memorySize, st)
    ensures Respects(st, Malloc(n), Step(test, memorySize, st, Malloc(n)))
  {
    var after := Step(test, memorySize, st, Malloc(n));
    if Accepts(st.blocks, st.used, memorySize, n) {
      var k := FirstFit(st.blocks, n);
      GrantIsNew(test, start, memorySize, st, n);
      assert after.held == st.held[st.blocks[k].Payload() := n];
      forall b | b in st.blocks && b.live
        ensures Stays(after.blocks, b)
      {
        var i :| 0 <= i < |st.blocks| && st.blocks[i] == b;
        assert after.blocks[if i < k then i else i + 1] == b;
      }
    } else {
      forall b | b in st.blocks && b.live
        ensures Stays(after.blocks, b)
      {
      }
    }
  }

  lemma ReleaseRespects(test: Form, start: int, memorySize: u32, st: State, p: int)
    requires Inv(test, start, memorySize, st) && p in st.held
    ensures Respects(st, Release(p), Step(test, memorySize, st, Release(p)))
  {
    var after := Step(test, memorySize, st, Release(p));
    AtLive(test, st, start, memorySize, p);
    var k := At(st.blocks, p);
    forall b | b in st.blocks && b.live && b.Payload() != p
      ensures Stays(after.blocks, b)
    {
      var i :| 0 <= i < |st.blocks| && st.blocks[i] == b;
      var m := FreeKeeps(test, st.blocks, k, i);
      assert after.blocks[m] in after.blocks;
    }
  }

  lemma {:induction false} RunRespectsAll(test: Form, start: int, memorySize: u32, st: State, ops: seq<Op>)
    requires Inv(test, start, memorySize, st) && AllowedRun(test, memorySize, st, ops)
    ensures RunRespects(test, memorySize, st, ops)
    decreases |ops|
  {
    if ops != [] {
      match ops[0] {
        case Malloc(n) => MallocRespects(test, start, memorySize, st, n);
        case Release(p) => ReleaseRespects(test, start, memorySize, st, p);
      }
      StepInv(test, start, memorySize, st, ops[0]);
      RunRespectsAll(test, start, memorySize, Step(test, memorySize, st, ops[0]), ops[1..]);
    }
  }

  /** Every byte held lies inside the region, no two held ranges overlap (there is always a header
      between them), and headers and payloads add up to the whole region. */
  ghost predicate HeldApart(start: int, memorySize: u32, st: State) {
    && Tiles(st.blocks, start, start + memorySize)
    && Footprint(st.blocks) == memorySize
    && (forall p :: p in st.held ==> start + H <= p && p + st.held[p] <= start + memorySize)
    && (forall p, q :: p in st.held && q in st.held && p < q ==> p + st.held[p] + H <= q)
  }

  lemma InvApart(test: Form, start: int, memorySize: u32, st: State)
    requires Inv(test, start, memorySize, st)
    ensures HeldApart(start, memorySize, st)
  {
    Conservation(st.blocks, start, start + memorySize);
    forall p | p in st.held
      ensures start + H <= p && p + st.held[p] <= start + memorySize
    {
      AtLive(test, st, start, memorySize, p);
      Inside(st.blocks, start, start + memorySize, At(st.blocks, p));
    }
    forall p, q | p in st.held && q in st.held && p < q
      ensures p + st.held[p] + H <= q
    {
      AtLive(test, st, start, memorySize, p);
      AtLive(test, st, start, memorySize, q);
      var i, j := At(st.blocks, p), At(st.blocks, q);
      if i < j {
        InOrder(st.blocks, start, start + memorySize, i, j);
      } else {
        InOrder(st.blocks, start, start + memorySize, j, i);
      }
    }
  }

  /** Memory safety for a client that frees only what it holds, under either predecessor test. The
      chunks tile the region throughout if and only if every split header fits; and then no call
      hands out a held pointer or touches a block that is held, and the held ranges lie apart. */
  lemma ClientSafety(test: Form, start: int, memorySize: u32, ops: seq<Op>)
    requires memorySize >= H && HeldRun(test, memorySize, Start(start, memorySize), ops)
    ensures Tiled(test, start, memorySize, Start(start, memorySize), ops)
       <==> AllowedRun(test, memorySize, Start(start, memorySize), ops)
    ensures AllowedRun(test, memorySize, Start(start, memorySize), ops) ==>
              && RunRespects(test, memorySize, Start(start, memorySize), ops)
              && HeldApart(start, memorySize, Run(test, memorySize, Start(start, memorySize), ops))
  {
    var st := Start(start, memorySize);
    StartInv(test, start, memorySize);
    RunInv(test, start, memorySize, st, ops);
    if AllowedRun(test, memorySize, st, ops) {
      RunRespectsAll(test, start, memorySize, st, ops);
      InvApart(test, start, memorySize, Run(test, memorySize, st, ops));
    }
  }

  lemma {:induction false} AllowedHeld(test: Form, memorySize: u32, st: State, ops: seq<Op>)
    requires AllowedRun(test, memorySize, st, ops)
    ensures HeldRun(test, memorySize, st, ops)
    decreases |ops|
  {
    if ops != [] {
      AllowedHeld(test, memorySize, Step(test, memorySize, st, ops[0]), ops[1..]);
    }
  }

  /** The block just granted is found again at its place on the list. */
  lemma GrantedAt(test: Form, start: int, memorySize: u32, st: State, n: u32)
    requires Inv(test, start, memorySize, st)
    requires Accepts(st.blocks, st.used, memorySize, n) && Fits(memorySize, st, Malloc(n))
    ensures var k := FirstFit(st.blocks, n);
      At(Split(st.blocks, k, n), st.blocks[k].Payload()) == k && st.blocks[k].size < WORD
  {
    var k := FirstFit(st.blocks, n);
    var t := Split(st.blocks, k, n);
    Inside(st.blocks, start, start + memorySize, k);
    SplitTiles(st.blocks, start, start + memorySize, k, n);
    assert t[k].Payload() == st.blocks[k].Payload();
    Distinct(t, start, start + memorySize, k, At(t, st.blocks[k].Payload()));
  }

  /** With the intended test, freeing the pointer that malloc has just returned gives back the very
      same blocks and books. */
  lemma MallocReleaseRestores(start: int, memorySize: u32, st: State, n: u32)
    requires Inv(Intended, start, memorySize, st)
    requires Accepts(st.blocks, st.used, memorySize, n) && Fits(memorySize, st, Malloc(n))
    ensures var p := st.blocks[FirstFit(st.blocks, n)].Payload();
      var after := Step(Intended, memorySize, st, Malloc(n));
      var again := Step(Intended, memorySize, after, Release(p));
      p in after.held && again.blocks == st.blocks && again.held == st.held
  {
    GrantIsNew(Intended, start, memorySize, st, n);
    GrantedAt(Intended, start, memorySize, st, n);
    MallocFreeRestores(st.blocks, FirstFit(st.blocks, n), n);
  }

  // ----- Canonical form under the intended test

  lemma TailTiles(s: seq<Block>, start: int, end: int)
    requires Tiles(s, start, end) && |s| > 1
    ensures Tiles(s[1..], s[0].End(), end) && (Coalesced(s) ==> Coalesced(s[1..]))
  {
    var t := s[1..];
    assert s[0 + 1].addr == s[0].End();
    forall i | 0 <= i < |t| - 1
      ensures t[i + 1].addr == t[i].End() && (Coalesced(s) ==> t[i].live || t[i + 1].live)
    {
      assert s[i + 1 + 1].addr == s[i + 1].End();
      assert Coalesced(s) ==> s[i + 1].live || s[i + 1 + 1].live;
    }
  }

  /** The live blocks both lists must share. */
  ghost predicate SameLive(s: seq<Block>, t: seq<Block>) {
    forall b: Block :: b.live ==> (b in s <==> b in t)
  }

  /** The first blocks of two coalesced tilings with the same live blocks: t's cannot be longer. */
  lemma FirstNotLonger(s: seq<Block>, t: seq<Block>, start: int, end: int)
    requires Tiles(s, start, end) && Tiles(t, start, end)
    requires Coalesced(s) && SameLive(s, t)
    ensures t[0].End() <= s[0].End() && (s[0].live ==> t[0] == s[0])
  {
    Inside(t, start, end, 0);
    if s[0].live {
      assert s[0] in t;
      var j :| 0 <= j < |t| && t[j] == s[0];
      Distinct(t, start, end, 0, j);
    } else if |s| > 1 {
      assert s[0].live || s[0 + 1].live;
      assert s[0 + 1].addr == s[0].End();
      assert s[1] in t;
      var j :| 0 <= j < |t| && t[j] == s[1];
      if j > 0 {
        InOrder(t, start, end, 0, j);
      }
    }
  }

  /** A coalesced tiling is determined by its live blocks. */
  lemma {:induction false} Canonical(s: seq<Block>, t: seq<Block>, start: int, end: int)
    requires Tiles(s, start, end) && Tiles(t, start, end)
    requires Coalesced(s) && Coalesced(t) && SameLive(s, t)
    ensures s == t
  {
    FirstNotLonger(s, t, start, end);
    FirstNotLonger(t, s, start, end);
    assert s[0] == t[0];
    if |s| == 1 || |t| == 1 {
      Inside(s, start, end, |s| - 1);
      Inside(t, start, end, |t| - 1);
      if |s| > 1 {
        InOrder(s, start, end, 0, |s| - 1);
      } else if |t| > 1 {
        InOrder(t, start, end, 0, |t| - 1);
      }
    } else {
      TailTiles(s, start, end);
      TailTiles(t, start, end);
      forall b: Block | b.live
        ensures b in s[1..] <==> b in t[1..]
      {
        TailMember(s, start, end, b);
        TailMember(t, start, end, b);
      }
      Canonical(s[1..], t[1..], s[0].End(), end);
      assert s == [s[0]] + s[1..] && t == [t[0]] + t[1..];
    }
  }

  lemma TailMember(s: seq<Block>, start: int, end: int, b: Block)
    requires Tiles(s, start, end)
    ensures b in s[1..] <==> b in s && b != s[0]
  {
    if b in s && b != s[0] {
      var i :| 0 <= i < |s| && s[i] == b;
      assert s[1..][i - 1] == b;
    }
    if b in s[1..] {
      var i :| 0 <= i < |s| - 1 && s[1..][i] == b;
      if s[0] == s[i + 1] {
        Distinct(s, start, end, 0, i + 1);
      }
    }
  }

  /** With the intended test the heap remembers nothing but what is held: two runs, however
      different, that end with the client holding the same pointers end in the same list. */
  lemma HistoryIndependent(start: int, memorySize: u32, ops: seq<Op>, ops': seq<Op>)
    requires memorySize >= H
    requires AllowedRun(Intended, memorySize, Start(start, memorySize), ops)
    requires AllowedRun(Intended, memorySize, Start(start, memorySize), ops')
    requires Run(Intended, memorySize, Start(start, memorySize), ops).held
          == Run(Intended, memorySize, Start(start, memorySize), ops').held
    ensures Run(Intended, memorySize, Start(start, memorySize), ops).blocks
         == Run(Intended, memorySize, Start(start, memorySize), ops').blocks
  {
    StartInv(Intended, start, memorySize);
    AllowedHeld(Intended, memorySize, Start(start, memorySize), ops);
    AllowedHeld(Intended, memorySize, Start(start, memorySize), ops');
    RunInv(Intended, start, memorySize, Start(start, memorySize), ops);
    RunInv(Intended, start, memorySize, Start(start, memorySize), ops');
    var s := Run(Intended, memorySize, Start(start, memorySize), ops);
    var t := Run(Intended, memorySize, Start(start, memorySize), ops');
    forall b: Block | b.live
      ensures b in s.blocks <==> b in t.blocks
    {
      LiveIsHeld(start, memorySize, s, b);
      LiveIsHeld(start, memorySize, t, b);
    }
    Canonical(s.blocks, t.blocks, start, start + memorySize);
  }

  lemma LiveIsHeld(start: int, memorySize: u32, st: State, b: Block)
    requires Inv(Intended, start, memorySize, st) && b.live
    ensures b in st.blocks <==> b.Payload() in st.held && st.held[b.Payload()] == b.size
  {
    var p := b.Payload();
    if p in st.held {
      AtLive(Intended, st, start, memorySize, p);
      var k := At(st.blocks, p);
      if b in st.blocks {
        var i :| 0 <= i < |st.blocks| && st.blocks[i] == b;
        Distinct(st.blocks, start, start + memorySize, i, k);
      }
    }
  }

  // ----- The usage counter

  function Charge(memorySize: u32, st: State, op: Op): nat {
    if op.Malloc? && Accepts(st.blocks, st.used, memorySize, op.n) then op.n + H else 0
  }

  /** Bytes charged for the successful mallocs of a run, frees notwithstanding. */
  function Charged(test: Form, memorySize: u32, st: State, ops: seq<Op>): nat
    decreases |ops|
  {
    if ops == [] then 0
    else Charge(memorySize, st, ops[0]) + Charged(test, memorySize, Step(test, memorySize, st, ops[0]), ops[1..])
  }

  /** A request big enough to wrap the guard is still refused, by the search, when the region
      is at most 2 GB. */
  lemma WrapRefused(test: Form, start: int, memorySize: u32, st: State, n: u32)
    requires Inv(test, start, memorySize, st) && memorySize <= 0x8000_0000
    requires st.used + n + H >= WORD
    ensures !Accepts(st.blocks, st.used, memorySize, n)
  {
    var k := FirstFit(st.blocks, n);
    if k < |st.blocks| {
      Inside(st.blocks, start, start + memorySize, k);
    }
  }

  lemma StepCharges(test: Form, start: int, memorySize: u32, st: State, op: Op)
    requires Inv(test, start, memorySize, st) && memorySize <= 0x8000_0000
    ensures Step(test, memorySize, st, op).used == st.used + Charge(memorySize, st, op)
  {
    if op.Malloc? && Accepts(st.blocks, st.used, memorySize, op.n) {
      if st.used + op.n + H >= WORD {
        WrapRefused(test, start, memorySize, st, op.n);
        assert false;
      }
      WrapId(st.used + op.n + H);
    }
  }

  /** How often the counter wraps around in one call, and in a run. */
  function Laps(memorySize: u32, st: State, op: Op): nat {
    (st.used + Charge(memorySize, st, op)) / 0x1_0000_0000
  }

  function AllLaps(test: Form, memorySize: u32, st: State, ops: seq<Op>): nat
    decreases |ops|
  {
    if ops == [] then 0
    else Laps(memorySize, st, ops[0]) + AllLaps(test, memorySize, Step(test, memorySize, st, ops[0]), ops[1..])
  }

  lemma StepLaps(test: Form, memorySize: u32, st: State, op: Op)
    requires st.used < memorySize
    ensures Step(test, memorySize, st, op).used
         == st.used + Charge(memorySize, st, op) - 0x1_0000_0000 * Laps(memorySize, st, op)
    ensures Step(test, memorySize, st, op).used < memorySize
  {
  }

  /** usedMemory is a lifetime total: freeing never lowers it. Over any run at all it is what was
      ever handed out, headers included, less 2^32 for each time it wrapped around, and it stays
      below the region's size. In a region of at most 2 GB it never wraps around while every split
      header fits. */
  lemma {:induction false} LifetimeTotal(test: Form, start: int, memorySize: u32, st: State, ops: seq<Op>)
    requires st.used < memorySize
    ensures Run(test, memorySize, st, ops).used
         == st.used + Charged(test, memorySize, st, ops) - 0x1_0000_0000 * AllLaps(test, memorySize, st, ops)
    ensures Run(test, memorySize, st, ops).used < memorySize
    ensures Inv(test, start, memorySize, st) && memorySize <= 0x8000_0000 && AllowedRun(test, memorySize, st, ops) ==>
              AllLaps(test, memorySize, st, ops) == 0
    decreases |ops|
  {
    if ops != [] {
      StepLaps(test, memorySize, st, ops[0]);
      LifetimeTotal(test, start, memorySize, Step(test, memorySize, st, ops[0]), ops[1..]);
      if Inv(test, start, memorySize, st) && memorySize <= 0x8000_0000 && AllowedRun(test, memorySize, st, ops) {
        StepCharges(test, start, memorySize, st, ops[0]);
        StepInv(test, start, memorySize, st, ops[0]);
      }
    }
  }

  // ----- Runs without free: a bump allocator

  /** The blocks a bump allocator carves off from `at`. */
  function Carved(at: int, sizes: seq<nat>): (s: seq<Block>)
    ensures |s| == |sizes|
    ensures forall i :: 0 <= i < |s| ==> s[i].live
    decreases |sizes|
  {
    if sizes == [] then [] else [Block(at, sizes[0], true)] + Carved(at + H + sizes[0], sizes[1..])
  }

  /** Carved blocks, and one free tail from `at` to the end of the region. */
  function Region(c: seq<Block>, at: int, end: int): seq<Block>
    requires at + H <= end
  {
    c + [Block(at, end - at - H, false)]
  }

  /** The whole region of a bump allocator. */
  function Bump(start: int, memorySize: u32, sizes: seq<nat>): seq<Block>
    requires Sum(sizes) + H <= memorySize
  {
    Region(Carved(start, sizes), start + Sum(sizes), start + memorySize)
  }

  function Sum(sizes: seq<nat>): nat {
    if sizes == [] then 0 else H + sizes[0] + Sum(sizes[1..])
  }

  /** The sizes that a bump pointer with `used` bytes behind it grants, in order. */
  function Granted(used: nat, memorySize: u32, ns: seq<u32>): seq<nat>
    decreases |ns|
  {
    if ns == [] then []
    else if used + ns[0] + H < memorySize then [ns[0]] + Granted(used + ns[0] + H, memorySize, ns[1..])
    else Granted(used, memorySize, ns[1..])
  }

  function Mallocs(ns: seq<u32>): seq<Op> {
    if ns == [] then [] else [Malloc(ns[0])] + Mallocs(ns[1..])
  }

  lemma {:induction false} CarvedSnoc(at: int, sizes: seq<nat>, n: nat)
    ensures Carved(at, sizes + [n]) == Carved(at, sizes) + [Block(at + Sum(sizes), n, true)]
    ensures Sum(sizes + [n]) == Sum(sizes) + H + n
    decreases |sizes|
  {
    if sizes == [] {
      assert (sizes + [n])[1..] == [];
    } else {
      CarvedSnoc(at + H + sizes[0], sizes[1..], n);
      assert (sizes + [n])[1..] == sizes[1..] + [n];
    }
  }

  /** The first-fit walk skips every carved block and stops at the tail, if that is big enough. */
  lemma RegionFit(c: seq<Block>, at: int, end: int, n: nat)
    requires at + H <= end && forall i :: 0 <= i < |c| ==> c[i].live
    ensures FirstFit(Region(c, at, end), n) == if end - at - H > n then |c| else |c| + 1
  {
    var s := Region(c, at, end);
    var k := FirstFit(s, n);
    assert forall i :: 0 <= i < |c| ==> s[i] == c[i];
    assert s[|c|] == s[|s| - 1];
  }

  lemma RegionSplit(c: seq<Block>, at: int, end: int, n: nat)
    requires at + H + n + H <= end < at + WORD
    ensures Split(Region(c, at, end), |c|, n) == Region(c + [Block(at, n, true)], at + H + n, end)
  {
    WrapId(end - at - H - H - n);
  }

  /** What a run without free looks like once `sizes` have been granted. */
  ghost predicate Bumped(start: int, memorySize: u32, st: State, sizes: seq<nat>) {
    Sum(sizes) + H <= memorySize && st.blocks == Bump(start, memorySize, sizes) && st.used == Sum(sizes)
  }

  lemma BumpedSnoc(start: int, memorySize: u32, st: State, sizes: seq<nat>, n: nat)
    requires Sum(sizes) + H + n + H <= memorySize && st.used == Sum(sizes) + H + n
    requires st.blocks == Region(Carved(start, sizes) + [Block(start + Sum(sizes), n, true)],
                                 start + Sum(sizes) + H + n, start + memorySize)
    ensures Bumped(start, memorySize, st, sizes + [n])
  {
    CarvedSnoc(start, sizes, n);
  }

  /** On such a run a request succeeds exactly when the sum so far leaves room: requests that
      wrap the guard fail, and for all others the guard and the search agree. */
  lemma BumpAccepts(start: int, memorySize: u32, st: State, sizes: seq<nat>, n: u32)
    requires Bumped(start, memorySize, st, sizes)
    ensures Accepts(st.blocks, st.used, memorySize, n) <==> st.used + n + H < memorySize
    ensures st.used + n + H < WORD ==> (Guard(st.used, memorySize, n) <==> FirstFit(st.blocks, n) < |st.blocks|)
    ensures Accepts(st.blocks, st.used, memorySize, n) ==> FirstFit(st.blocks, n) == |Carved(start, sizes)|
  {
    RegionFit(Carved(start, sizes), start + Sum(sizes), start + memorySize, n);
    if st.used + n + H < WORD {
      WrapId(st.used + n + H);
    }
  }

  lemma BumpStep(test: Form, start: int, memorySize: u32, st: State, sizes: seq<nat>, n: u32)
    requires Bumped(start, memorySize, st, sizes) && Allowed(memorySize, st, Malloc(n))
    requires st.used + n + H < memorySize
    ensures var at := start + Sum(sizes);
      && Sum(sizes) + H + n + H <= memorySize
      && Step(test, memorySize, st, Malloc(n))
      == State(Region(Carved(start, sizes) + [Block(at, n, true)], at + H + n, start + memorySize),
               st.used + n + H, st.held[at + H := n])
  {
    BumpAccepts(start, memorySize, st, sizes, n);
    var c, at, end := Carved(start, sizes), start + Sum(sizes), start + memorySize;
    WrapId(st.used + n + H);
    assert st.blocks[|c|] == Block(at, end - at - H, false);
    RegionSplit(c, at, end, n);
  }

  /** A request that is refused changes nothing. One that is granted gets the bump pointer, and if
      two headers fit behind it the list stays that of a bump allocator. */
  lemma MallocIsBump(test: Form, start: int, memorySize: u32, st: State, sizes: seq<nat>, n: u32)
    requires Bumped(start, memorySize, st, sizes)
    ensures st.used + n + H >= memorySize ==> Step(test, memorySize, st, Malloc(n)) == st
    ensures st.used + n + H < memorySize ==>
              Step(test, memorySize, st, Malloc(n)).held == st.held[start + Sum(sizes) + H := n]
    ensures st.used + n + H < memorySize && Fits(memorySize, st, Malloc(n)) ==>
              Bumped(start, memorySize, Step(test, memorySize, st, Malloc(n)), sizes + [n])
  {
    BumpAccepts(start, memorySize, st, sizes, n);
    if st.used + n + H < memorySize {
      assert st.blocks[|Carved(start, sizes)|].addr == start + Sum(sizes);
    }
    if st.used + n + H < memorySize && Fits(memorySize, st, Malloc(n)) {
      BumpStep(test, start, memorySize, st, sizes, n);
      BumpedSnoc(start, memorySize, Step(test, memorySize, st, Malloc(n)), sizes, n);
    }
  }

  lemma {:induction false} BumpRun(test: Form, start: int, memorySize: u32, st: State, sizes: seq<nat>, ns: seq<u32>)
    requires Bumped(start, memorySize, st, sizes)
    requires AllowedRun(test, memorySize, st, Mallocs(ns))
    ensures Bumped(start, memorySize, Run(test, memorySize, st, Mallocs(ns)),
                   sizes + Granted(Sum(sizes), memorySize, ns))
    decreases |ns|
  {
    if ns == [] {
      assert sizes + Granted(Sum(sizes), memorySize, ns) == sizes;
    } else {
      var n := ns[0];
      assert Mallocs(ns)[0] == Malloc(n) && Mallocs(ns)[1..] == Mallocs(ns[1..]);
      MallocIsBump(test, start, memorySize, st, sizes, n);
      var st' := Step(test, memorySize, st, Malloc(n));
      if Sum(sizes) + n + H < memorySize {
        BumpRun(test, start, memorySize, st', sizes + [n], ns[1..]);
        GrantedCons(sizes, memorySize, n, ns[1..]);
        assert ns == [n] + ns[1..];
      } else {
        BumpRun(test, start, memorySize, st', sizes, ns[1..]);
      }
    }
  }

  lemma GrantedCons(sizes: seq<nat>, memorySize: u32, n: u32, ns: seq<u32>)
    requires Sum(sizes) + n + H < memorySize
    ensures sizes + [n] + Granted(Sum(sizes + [n]), memorySize, ns) == sizes + Granted(Sum(sizes), memorySize, [n] + ns)
  {
    CarvedSnoc(0, sizes, n);
    assert ([n] + ns)[1..] == ns;
  }

  /** On such a run the header of the remainder fits exactly when the request is refused or leaves
      room for two headers. */
  lemma BumpFitsIff(start: int, memorySize: u32, st: State, sizes: seq<nat>, n: u32)
    requires Bumped(start, memorySize, st, sizes)
    ensures Fits(memorySize, st, Malloc(n)) <==>
            st.used + n + H >= memorySize || st.used + n + H + H <= memorySize
  {
    BumpAccepts(start, memorySize, st, sizes, n);
    var c := Carved(start, sizes);
    assert st.blocks[|c|] == Block(start + Sum(sizes), memorySize - Sum(sizes) - H, false);
  }

  /** Each request is refused or leaves room for two headers behind the `used` bytes and those
      granted before it. */
  predicate SizesFit(used: nat, memorySize: u32, ns: seq<u32>)
    decreases |ns|
  {
    || ns == []
    || (if used + ns[0] + H < memorySize
        then used + ns[0] + H + H <= memorySize && SizesFit(used + ns[0] + H, memorySize, ns[1..])
        else SizesFit(used, memorySize, ns[1..]))
  }

  lemma MallocsCons(test: Form, memorySize: u32, st: State, ns: seq<u32>)
    requires ns != []
    ensures AllowedRun(test, memorySize, st, Mallocs(ns)) <==>
            && Fits(memorySize, st, Malloc(ns[0]))
            && AllowedRun(test, memorySize, Step(test, memorySize, st, Malloc(ns[0])), Mallocs(ns[1..]))
  {
    assert Mallocs(ns)[0] == Malloc(ns[0]) && Mallocs(ns)[1..] == Mallocs(ns[1..]);
  }

  lemma {:induction false} BumpFits(test: Form, start: int, memorySize: u32, st: State, sizes: seq<nat>, ns: seq<u32>)
    requires Bumped(start, memorySize, st, sizes)
    ensures AllowedRun(test, memorySize, st, Mallocs(ns)) <==> SizesFit(st.used, memorySize, ns)
    decreases |ns|
  {
    if ns != [] {
      var n := ns[0];
      MallocsCons(test, memorySize, st, ns);
      BumpFitsIff(start, memorySize, st, sizes, n);
      if Fits(memorySize, st, Malloc(n)) {
        MallocIsBump(test, start, memorySize, st, sizes, n);
        var after := Step(test, memorySize, st, Malloc(n));
        if st.used + n + H < memorySize {
          CarvedSnoc(start, sizes, n);
          BumpFits(test, start, memorySize, after, sizes + [n], ns[1..]);
        } else {
          BumpFits(test, start, memorySize, after, sizes, ns[1..]);
        }
      }
    }
  }

  lemma {:induction false} MallocsHold(test: Form, memorySize: u32, st: State, ns: seq<u32>)
    ensures HeldRun(test, memorySize, st, Mallocs(ns))
    decreases |ns|
  {
    if ns != [] {
      assert Mallocs(ns)[0] == Malloc(ns[0]) && Mallocs(ns)[1..] == Mallocs(ns[1..]);
      MallocsHold(test, memorySize, Step(test, memorySize, st, Malloc(ns[0])), ns[1..]);
    }
  }

  /** From a fresh heap a run of mallocs keeps the region tiled exactly when the sizes fit, and it
      then leaves exactly the bump allocator's list. */
  lemma MallocsAreBump(test: Form, start: int, memorySize: u32, ns: seq<u32>)
    requires memorySize >= H
    ensures Tiled(test, start, memorySize, Start(start, memorySize), Mallocs(ns)) <==> SizesFit(0, memorySize, ns)
    ensures SizesFit(0, memorySize, ns) ==>
              Bumped(start, memorySize, Run(test, memorySize, Start(start, memorySize), Mallocs(ns)),
                     Granted(0, memorySize, ns))
  {
    var st := Start(start, memorySize);
    assert Bumped(start, memorySize, st, []);
    StartInv(test, start, memorySize);
    MallocsHold(test, memorySize, st, ns);
    RunInv(test, start, memorySize, st, Mallocs(ns));
    BumpFits(test, start, memorySize, st, [], ns);
    if SizesFit(0, memorySize, ns) {
      BumpRun(test, start, memorySize, st, [], ns);
      assert [] + Granted(0, memorySize, ns) == Granted(0, memorySize, ns);
    }
  }

  /** What line 40 lets through: on a fresh heap a request that leaves room for one header but not
      for two is granted, and the chunks no longer tile the region. */
  lemma MisfitBreaks(test: Form, start: int, memorySize: u32, n: u32)
    requires n + H < memorySize < n + H + H
    ensures var st := Start(start, memorySize);
      && Accepts(st.blocks, st.used, memorySize, n)
      && !Tiles(Step(test, memorySize, st, Malloc(n)).blocks, start, start + memorySize)
  {
    var st := Start(start, memorySize);
    assert Bumped(start, memorySize, st, []);
    BumpAccepts(start, memorySize, st, [], n);
    BumpFitsIff(start, memorySize, st, [], n);
    StartInv(test, start, memorySize);
    StepInv(test, start, memorySize, st, Malloc(n));
  }
}
