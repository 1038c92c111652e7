/** The heap in memory follows the runs on block lists: each call on the linked chunks is one step
    of the state machine, so what holds over its runs holds for the chunks. */
module HeapClient {
  import opened Machine
  import opened HeapLayout
  import HeapList
  import HeapRuns

  /** The chunks and the counter are those of the state; `next` and `prev` are inverse. */
  ghost predicate Tracks(heap: HeapList.Heap, st: HeapRuns.State)
    reads heap, heap.chunks
  {
    heap.Linked() && heap.BackLinked() && heap.Layout() == st.blocks && heap.usedMemory == st.used
  }

  method Start(start: u32, memorySize: u32) returns (heap: HeapList.Heap)
    requires memorySize >= H
    ensures fresh(heap) && fresh(heap.chunks) && heap.memorySize == memorySize
    ensures Tracks(heap, HeapRuns.Start(start, memorySize))
  {
    heap := new HeapList.Heap(start, memorySize);
  }

  /** malloc is a step, and the address it returns is the pointer the books gain; it is not one that
      was held. */
  method Malloc(heap: HeapList.Heap, n: u32, ghost test: Form, ghost start: int, ghost st: HeapRuns.State)
    returns (result: HeapList.MemoryChunk?, ghost after: HeapRuns.State)
    requires Tracks(heap, st)
    modifies heap, heap.chunks
    ensures forall c :: c in heap.chunks ==> c in old(heap.chunks) || fresh(c)
    ensures after == HeapRuns.Step(test, heap.memorySize, st, HeapRuns.Malloc(n)) && Tracks(heap, after)
    ensures after.held == if result == null then st.held else st.held[result.addr + H := n]
    ensures result == null <==> !Accepts(st.blocks, st.used, heap.memorySize, n)
    ensures HeapRuns.Inv(test, start, heap.memorySize, st) && result != null ==> result.addr + H !in st.held
  {
    if HeapRuns.Inv(test, start, heap.memorySize, st) && Accepts(st.blocks, st.used, heap.memorySize, n) {
      HeapRuns.GrantIsNew(test, start, heap.memorySize, st, n);
    }
    result := heap.Malloc(n);
    after := HeapRuns.Step(test, heap.memorySize, st, HeapRuns.Malloc(n));
  }

  /** The cast at the start of free: the chunk in front of the payload that p points to. */
  method Header(heap: HeapList.Heap, p: int, ghost k: nat) returns (chunk: HeapList.MemoryChunk)
    requires heap.Linked() && k < |heap.chunks| && heap.chunks[k].addr + H == p
    requires forall i :: 0 <= i < k ==> heap.chunks[i].addr + H != p
    ensures chunk == heap.chunks[k]
  {
    chunk := heap.first;
    ghost var i := 0;
    while chunk.addr + H != p
      invariant i <= k && chunk == heap.chunks[i]
      decreases k - i
    {
      assert chunk.next == HeapList.Link(heap.chunks, i + 1);
      chunk := chunk.next;
      i := i + 1;
    }
  }

  /** The chunk of a held pointer is the one that the run model finds. */
  lemma Located(heap: HeapList.Heap, test: Form, start: int, st: HeapRuns.State, p: int) returns (k: nat)
    requires Tracks(heap, st) && HeapRuns.Inv(test, start, heap.memorySize, st) && p in st.held
    ensures k == HeapRuns.At(st.blocks, p) < |heap.chunks| && heap.chunks[k].addr + H == p
    ensures forall i :: 0 <= i < k ==> heap.chunks[i].addr + H != p
    ensures heap.chunks[k].prev == HeapList.Link(heap.chunks, k as int - 1)
  {
    k := HeapRuns.At(st.blocks, p);
    HeapRuns.AtLive(test, st, start, heap.memorySize, p);
    forall i | 0 <= i <= k
      ensures heap.chunks[i].addr + H == st.blocks[i].Payload()
    {
      assert heap.Layout()[i] == heap.chunks[i].Image();
    }
  }

  /** free of a held pointer takes the blocks and the counter through a step, with lines 80 and 96
      each as written or as intended; and `prev` stays the inverse of `next` if and only if line 96
      is as intended or has no link to set. */
  method Free(heap: HeapList.Heap, test: Form, link: Form, p: int, ghost start: int, ghost st: HeapRuns.State)
    returns (ghost after: HeapRuns.State)
    requires Tracks(heap, st) && HeapRuns.Inv(test, start, heap.memorySize, st) && p in st.held
    modifies heap.chunks, heap`chunks
    ensures forall c :: c in heap.chunks ==> c in old(heap.chunks)
    ensures after == HeapRuns.Step(test, heap.memorySize, st, HeapRuns.Release(p)) && after.held == st.held - {p}
    ensures heap.Linked() && heap.Layout() == after.blocks && heap.usedMemory == after.used
    ensures Tracks(heap, after) <==> link.Intended? || !HeapRuns.Relinks(st, HeapRuns.Release(p))
  {
    ghost var k := Located(heap, test, start, st, p);
    after := HeapRuns.Step(test, heap.memorySize, st, HeapRuns.Release(p));
    var chunk := Header(heap, p, k);
    FreeAtPlace(heap, test, link, chunk, k);
  }

  /** free of the k-th chunk. */
  method FreeAtPlace(heap: HeapList.Heap, test: Form, link: Form, chunk: HeapList.MemoryChunk, ghost k: nat)
    requires heap.Linked() && heap.BackLinked() && k < |heap.chunks| && heap.chunks[k] == chunk
    modifies heap.chunks, heap`chunks
    ensures heap.Linked() && heap.Layout() == HeapLayout.Free(test, old(heap.Layout()), k)
    ensures forall c :: c in heap.chunks ==> c in old(heap.chunks)
    ensures heap.BackLinked() <==> link.Intended? || k + 2 >= |old(heap.chunks)| || old(heap.Layout()[k + 1].live)
  {
    ghost var s, before := heap.Layout(), heap.chunks;
    ghost var j: int := k as int - 1;
    HeapList.RelinkedIff(test, s, k);
    assert chunk.prev == HeapList.Link(heap.chunks, j);
    heap.Free(test, link, chunk, k, j);
    HeapList.SurvivorsIn(test, s, before, k, j);
  }

  /** One call of a run. */
  method Call(heap: HeapList.Heap, test: Form, link: Form, op: HeapRuns.Op, ghost start: int, ghost st: HeapRuns.State)
    returns (ghost after: HeapRuns.State)
    requires Tracks(heap, st) && HeapRuns.Inv(test, start, heap.memorySize, st)
    requires HeapRuns.Allowed(heap.memorySize, st, op) && (link.Written? ==> !HeapRuns.Relinks(st, op))
    modifies heap, heap.chunks
    ensures forall c :: c in heap.chunks ==> c in old(heap.chunks) || fresh(c)
    ensures after == HeapRuns.Step(test, heap.memorySize, st, op)
    ensures Tracks(heap, after) && HeapRuns.Inv(test, start, heap.memorySize, after)
  {
    HeapRuns.StepInv(test, start, heap.memorySize, st, op);
    match op {
      case Malloc(n) =>
        var result;
        result, after := Malloc(heap, n, test, start, st);
      case Release(p) =>
        after := Free(heap, test, link, p, start, st);
    }
  }

  /** The calls of a run, one after the other. */
  method Calls(heap: HeapList.Heap, test: Form, link: Form, ops: seq<HeapRuns.Op>, ghost start: int,
               ghost first: HeapRuns.State)
    returns (ghost st: HeapRuns.State)
    requires Tracks(heap, first) && HeapRuns.Inv(test, start, heap.memorySize, first)
    requires HeapRuns.AllowedRun(test, heap.memorySize, first, ops)
    requires HeapRuns.Quiet(link, test, heap.memorySize, first, ops)
    modifies heap, heap.chunks
    ensures st == HeapRuns.Run(test, heap.memorySize, first, ops) && Tracks(heap, st)
    decreases |ops|
  {
    st := first;
    if ops != [] {
      st := Call(heap, test, link, ops[0], start, first);
      assert forall k :: 0 <= k < |heap.chunks| ==> heap.chunks[k] in old(heap.chunks) || fresh(heap.chunks[k]);
      st := Calls(heap, test, link, ops[1..], start, st);
    }
  }

  /** Whole runs on the linked chunks: if only held pointers are freed, every split header fits,
      and line 96 never sets a wrong back link, then the chunks are those of the run on block lists,
      `prev` is the inverse of `next`, no call hands out a held pointer or touches a block that is
      held, and the held byte ranges lie inside the region and apart. */
  method Play(start: u32, memorySize: u32, test: Form, link: Form, ops: seq<HeapRuns.Op>) returns (heap: HeapList.Heap)
    requires memorySize >= H
    requires HeapRuns.AllowedRun(test, memorySize, HeapRuns.Start(start, memorySize), ops)
    requires HeapRuns.Quiet(link, test, memorySize, HeapRuns.Start(start, memorySize), ops)
    ensures Tracks(heap, HeapRuns.Run(test, memorySize, HeapRuns.Start(start, memorySize), ops))
    ensures HeapRuns.RunRespects(test, memorySize, HeapRuns.Start(start, memorySize), ops)
    ensures HeapRuns.HeldApart(start, memorySize,
                               HeapRuns.Run(test, memorySize, HeapRuns.Start(start, memorySize), ops))
  {
    HeapRuns.AllowedHeld(test, memorySize, HeapRuns.Start(start, memorySize), ops);
    HeapRuns.ClientSafety(test, start, memorySize, ops);
    HeapRuns.StartInv(test, start, memorySize);
    heap := Start(start, memorySize);
    ghost var st := Calls(heap, test, link, ops, start, HeapRuns.Start(start, memorySize));
  }
}
