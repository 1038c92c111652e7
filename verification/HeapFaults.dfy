/** What the two lines of free do as written, on concrete heaps. */
module HeapFaults {
  import opened Machine
  import opened HeapLayout
  import opened HeapList

  /** malloc on a heap whose first free block is block k and has room for n bytes and a header;
      `held` are the client's books: each pointer it holds, with the size it asked for. */
  method MallocAt(heap: Heap, n: u32, ghost k: nat, ghost held: map<int, nat>)
    returns (chunk: MemoryChunk, ghost held': map<int, nat>)
    requires heap.Linked() && heap.BackLinked() && heap.usedMemory + n + H < heap.memorySize
    requires k < |heap.chunks| && !heap.Layout()[k].live && n + H <= heap.Layout()[k].size < WORD
    requires forall i :: 0 <= i < k ==> heap.Layout()[i].live
    modifies heap, heap.chunks
    ensures heap.Linked() && heap.BackLinked() && heap.usedMemory == old(heap.usedMemory) + n + H
    ensures var s, b := old(heap.Layout()), old(heap.Layout()[k]);
      heap.Layout() == s[..k] + [Block(b.addr, n, true), Block(b.addr + H + n, b.size - H - n, false)] + s[k + 1..]
    ensures |heap.chunks| == |old(heap.chunks)| + 1 && fresh(heap.chunks[k + 1])
    ensures heap.chunks == old(heap.chunks)[..k + 1] + [heap.chunks[k + 1]] + old(heap.chunks)[k + 1..]
    ensures chunk == old(heap.chunks)[k] && held' == held[old(heap.Layout()[k]).Payload() := n]
  {
    ghost var s := heap.Layout();
    assert FirstFit(s, n) == k;
    WrapId(s[k].size - H - n);
    WrapId(heap.usedMemory + n + H);
    chunk := heap.Malloc(n);
    held' := held[s[k].Payload() := n];
  }

  lemma FreeLast(s: seq<Block>)
    requires |s| == 3 && s[0].live && !s[2].live
    ensures FreeAt(Written, s, 1, 0) == [Block(s[0].addr, s[0].size + H + s[1].size + H + s[2].size, true)]
  {
  }

  /** Line 80 alone: after two mallocs, freeing the second hands all the memory there is to the
      first, which is live, and nothing is free any more. */
  method SecondFreeLosesTheHeap() returns (heap: Heap)
    ensures heap.Linked() && heap.memorySize == 2000 && heap.Layout() == [Block(0, 1980, true)]
  {
    var a, b;
    ghost var held;
    heap, a, b, held := Pair();
    FreeLast(heap.Layout());
    heap.Free(Written, Written, b, 1, 0);
  }

  // ----- Both lines together

  lemma FreeFirst<T>(s: seq<Block>, t: seq<T>)
    requires |s| == |t| == 3 && s[1].live
    ensures FreeAt(Written, s, 0, -1) == [s[0].(live := false), s[1], s[2]]
    ensures Survivors(Written, s, t, 0, -1) == t && Relinked(Written, s, 0) == -1
  {
  }

  method Pair() returns (heap: Heap, a: MemoryChunk, r: MemoryChunk, ghost held: map<int, nat>)
    ensures heap.Linked() && heap.BackLinked() && fresh(heap) && fresh(heap.chunks)
    ensures heap.memorySize == 2000 && heap.usedMemory == 590
    ensures heap.Layout() == [Block(0, 500, true), Block(520, 50, true), Block(590, 1390, false)]
    ensures heap.chunks[0] == a && heap.chunks[1] == r && held == map[20 := 500, 540 := 50]
  {
    heap := new Heap(0, 2000);
    a, held := MallocAt(heap, 500, 0, map[]);
    r, held := MallocAt(heap, 50, 1, held);
  }

  /** Two mallocs, and the first of them freed: a hole in front of a live block. */
  method Hole() returns (heap: Heap, r: MemoryChunk, ghost held: map<int, nat>)
    ensures heap.Linked() && heap.BackLinked() && fresh(heap) && fresh(heap.chunks)
    ensures heap.memorySize == 2000 && heap.usedMemory == 590
    ensures heap.Layout() == [Block(0, 500, false), Block(520, 50, true), Block(590, 1390, false)]
    ensures heap.chunks[1] == r && held == map[540 := 50]
  {
    var a;
    heap, a, r, held := Pair();
    FreeFirst(heap.Layout(), heap.chunks);
    heap.Free(Written, Written, a, 0, -1);
    held := held - {20};
  }

  method FilledTwo() returns (heap: Heap, o: MemoryChunk, p: MemoryChunk, r: MemoryChunk, ghost held: map<int, nat>)
    ensures heap.Linked() && heap.BackLinked() && fresh(heap) && fresh(heap.chunks)
    ensures heap.memorySize == 2000 && heap.usedMemory == 830
    ensures heap.Layout() == [Block(0, 100, true), Block(120, 100, true), Block(240, 260, false),
                              Block(520, 50, true), Block(590, 1390, false)]
    ensures heap.chunks[0] == o && heap.chunks[1] == p && heap.chunks[3] == r
    ensures held == map[540 := 50, 20 := 100, 140 := 100]
  {
    heap, r, held := Hole();
    o, held := MallocAt(heap, 100, 0, held);
    p, held := MallocAt(heap, 100, 1, held);
  }

  /** Three mallocs into that hole. */
  method Filled()
    returns (heap: Heap, o: MemoryChunk, p: MemoryChunk, q: MemoryChunk, r: MemoryChunk, ghost held: map<int, nat>)
    ensures heap.Linked() && heap.BackLinked() && fresh(heap) && fresh(heap.chunks)
    ensures heap.memorySize == 2000 && heap.usedMemory == 950
    ensures heap.Layout() == [Block(0, 100, true), Block(120, 100, true), Block(240, 100, true), Block(360, 140, false),
                              Block(520, 50, true), Block(590, 1390, false)]
    ensures heap.chunks[0] == o && heap.chunks[1] == p && heap.chunks[2] == q && heap.chunks[4] == r
    ensures held == map[540 := 50, 20 := 100, 140 := 100, 260 := 100]
  {
    heap, o, p, r, held := FilledTwo();
    q, held := MallocAt(heap, 100, 2, held);
  }

  lemma FreeMiddle(s: seq<Block>)
    requires |s| == 6 && s[0].live && s[1].live && !s[3].live && s[4].live
    ensures FreeAt(Written, s, 2, 1)
         == [s[0], s[1].(size := s[1].size + H + s[2].size + H + s[3].size), s[4], s[5]]
    ensures Relinked(Written, s, 2) == 2
  {
    var r := Backward(Written, s, 2, 1).0;
    assert r == [s[0], s[1].(size := s[1].size + H + s[2].size), s[3], s[4], s[5]];
  }

  lemma KeptMiddle<T>(s: seq<Block>, t: seq<T>)
    requires |s| == |t| == 6 && s[0].live && s[1].live && !s[3].live && s[4].live
    ensures Survivors(Written, s, t, 2, 1) == [t[0], t[1], t[4], t[5]]
  {
    var r := Backward(Written, s, 2, 1).0;
    assert r == [s[0], s[1].(size := s[1].size + H + s[2].size), s[3], s[4], s[5]];
    assert KeptBack(Written, s, t, 2, 1) == [t[0], t[1], t[3], t[4], t[5]];
  }

  /** free of the third of six chunks, the fourth being free. */
  method FreeThird(heap: Heap, q: MemoryChunk)
    requires heap.Linked() && heap.BackLinked() && |heap.chunks| == 6 && heap.chunks[2] == q
    requires var s := heap.Layout(); s[0].live && s[1].live && !s[3].live && s[4].live
    modifies heap.chunks, heap`chunks
    ensures heap.Linked()
    ensures var s := old(heap.Layout());
      heap.Layout() == [s[0], s[1].(size := s[1].size + H + s[2].size + H + s[3].size), s[4], s[5]]
    ensures var t := old(heap.chunks); heap.chunks == [t[0], t[1], t[4], t[5]] && t[4].prev == t[0] && t[0].prev == null
  {
    ghost var t := heap.chunks;
    FreeMiddle(heap.Layout());
    KeptMiddle(heap.Layout(), heap.chunks);
    heap.Free(Written, Written, q, 2, 1);
    assert heap.chunks[2].prev == Link(heap.chunks, 0) && heap.chunks[0].prev == Link(heap.chunks, -1);
  }

  /** Freeing q lets line 96 set the back link of r to o instead of p. */
  method Misled() returns (heap: Heap, o: MemoryChunk, p: MemoryChunk, r: MemoryChunk, ghost held: map<int, nat>)
    ensures heap.Linked() && fresh(heap) && fresh(heap.chunks)
    ensures heap.memorySize == 2000 && heap.usedMemory == 950
    ensures heap.Layout() == [Block(0, 100, true), Block(120, 380, true), Block(520, 50, true), Block(590, 1390, false)]
    ensures heap.chunks[0] == o && heap.chunks[1] == p && heap.chunks[2] == r && r.prev == o && o.prev == null
    ensures held == map[540 := 50, 20 := 100, 140 := 100]
  {
    var q;
    heap, o, p, q, r, held := Filled();
    FreeThird(heap, q);
    held := held - {260};
  }

  lemma FreeBehindLink<T>(s: seq<Block>, t: seq<T>)
    requires |s| == |t| == 4 && s[0].live && !s[3].live
    ensures FreeAt(Written, s, 2, 0) == [s[0].(size := s[0].size + H + s[2].size + H + s[3].size)]
    ensures Backward(Written, s, 2, 0).1 == 0 && Survivors(Written, s, t, 2, 0) == [t[0]]
  {
    var r := Backward(Written, s, 2, 0).0;
    assert r == [s[0].(size := s[0].size + H + s[2].size), s[3]];
    assert KeptBack(Written, s, t, 2, 0) == [t[0], t[3]];
  }

  /** Freeing r makes o take over everything from r to the end of the heap: the chunk of o is now
      as long as that and covers all of p's, which is on the list no more. */
  method Swallowed() returns (heap: Heap, o: MemoryChunk, p: MemoryChunk, ghost held: map<int, nat>)
    ensures heap.Linked() && heap.BackLinked() && fresh(heap) && fresh(heap.chunks)
    ensures heap.memorySize == 2000 && heap.usedMemory == 950
    ensures heap.Layout() == [Block(0, 1580, true)] && heap.chunks == [o] && p.Image() == Block(120, 380, true)
    ensures held == map[20 := 100, 140 := 100]
  {
    var r;
    heap, o, p, r, held := Misled();
    ghost var s := heap.Layout();
    FreeBehindLink(s, heap.chunks);
    assert p.Image() == s[1];
    heap.Free(Written, Written, r, 2, 0);
    held := held - {540};
  }

  /** As written, a run of six mallocs and four frees, each of a pointer held at the time, after
      which two held ranges overlap: freeing o as well makes all that memory free, and the next
      malloc hands out [20, 1020), which contains the 100 bytes held from 140 on. */
  method HeldRangesOverlap() returns (heap: Heap, chunk: MemoryChunk, ghost held: map<int, nat>)
    ensures chunk.Image() == Block(0, 1000, true)
    ensures held == map[20 := 1000, 140 := 100]
    ensures exists p, q :: p in held && q in held && p < q < p + held[p]
  {
    var o, p;
    heap, o, p, held := Swallowed();
    assert FreeAt(Written, heap.Layout(), 0, -1) == [Block(0, 1580, false)];
    assert Survivors(Written, heap.Layout(), heap.chunks, 0, -1) == [o] && Relinked(Written, heap.Layout(), 0) == -1;
    heap.Free(Written, Written, o, 0, -1);
    held := held - {20};
    chunk, held := MallocAt(heap, 1000, 0, held);
    assert heap.Layout()[0] == chunk.Image();
    assert held[20] == 1000 && 140 in held;
  }
}
