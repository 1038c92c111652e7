/** The kernel heap as it is in memory: chunk headers on a doubly linked list, rewritten in
    place by malloc and free. */
module HeapList {
  import opened Machine
  import opened HeapLayout

  class MemoryChunk {
    const addr: int
    var next: MemoryChunk?
    var prev: MemoryChunk?
    var live: bool
    var size: nat

    constructor (addr: int)
      ensures this.addr == addr
    {
      this.addr := addr;
    }

    ghost function Image(): Block
      reads this
    {
      Block(addr, size, live)
    }
  }

  /** The k-th chunk, or null beyond either end. */
  ghost function Link(chunks: seq<MemoryChunk>, k: int): MemoryChunk? {
    if 0 <= k < |chunks| then chunks[k] else null
  }

  ghost function Images(chunks: seq<MemoryChunk>): (s: seq<Block>)
    reads chunks
    ensures |s| == |chunks|
    ensures forall i {:trigger s[i]} :: 0 <= i < |s| ==> s[i] == chunks[i].Image()
  {
    seq(|chunks|, i requires 0 <= i < |chunks| reads chunks => chunks[i].Image())
  }

  /** The headers that stay on the list, from those in t, at each half of a free. */
  ghost function KeptBack<T>(test: Form, s: seq<Block>, t: seq<T>, i: nat, j: int): (u: seq<T>)
    requires -1 <= j < i < |s| && |t| == |s|
    ensures |u| == |Backward(test, s, i, j).0|
  {
    if j >= 0 && Merges(test, s[j]) then Cut(t, j, i) else t
  }

  ghost function KeptForward<T>(s: seq<Block>, t: seq<T>, c: nat): (u: seq<T>)
    requires c < |s| && |t| == |s|
    ensures |u| == |Forward(s, c)|
  {
    if c + 1 < |s| && !s[c + 1].live then Cut(t, c, c + 1) else t
  }

  /** The headers that stay on the list when block i is freed with its back link at j. */
  ghost function Survivors<T>(test: Form, s: seq<Block>, t: seq<T>, i: nat, j: int): (u: seq<T>)
    requires -1 <= j < i < |s| && |t| == |s|
    ensures |u| == |FreeAt(test, s, i, j)|
  {
    var (r, c) := Backward(test, s, i, j);
    KeptForward(r, KeptBack(test, s, t, i, j), c)
  }

  lemma SurvivorsIn<T>(test: Form, s: seq<Block>, t: seq<T>, i: nat, j: int)
    requires -1 <= j < i < |s| && |t| == |s|
    ensures forall x :: x in Survivors(test, s, t, i, j) ==> x in t
  {
    var (r, c) := Backward(test, s, i, j);
    var u := KeptBack(test, s, t, i, j);
    assert forall x :: x in u ==> x in t;
    assert forall x :: x in KeptForward(r, u, c) ==> x in u;
  }

  /** The block whose back link line 96 sets when block c takes over its successor, or -1. */
  ghost function Behind(s: seq<Block>, c: nat): int {
    if c + 2 < |s| && !s[c + 1].live then c + 1 else -1
  }

  /** The same, when block i of s is freed. */
  ghost function Relinked(test: Form, s: seq<Block>, i: nat): int
    requires i < |s|
  {
    var (r, c) := Backward(test, s, i, i - 1);
    Behind(r, c)
  }

  /** There is one exactly when the freed block has a free successor that is not the last
      block; it is the block behind that one. */
  lemma RelinkedIff(test: Form, s: seq<Block>, i: nat)
    requires i < |s|
    ensures Relinked(test, s, i) != -1 <==> i + 2 < |s| && !s[i + 1].live
    ensures Relinked(test, s, i) != -1 ==> Free(test, s, i)[Relinked(test, s, i)] == s[i + 2]
  {
  }

  class Heap {
    const start: int
    const memorySize: u32
    var usedMemory: u32
    var first: MemoryChunk?
    /** The chunks reached from `first` by following `next`. */
    ghost var chunks: seq<MemoryChunk>

    /** The objects of a list: distinct, and starting at `first`. */
    ghost predicate Listed(all: seq<MemoryChunk>)
      reads this`first
    {
      && (forall i, j :: 0 <= i < j < |all| ==> all[i] != all[j])
      && first == Link(all, 0)
    }

    ghost predicate Linked()
      reads this`first, this`chunks, chunks
    {
      && Listed(chunks)
      && forall k {:trigger chunks[k].next} :: 0 <= k < |chunks| ==> chunks[k].next == Link(chunks, k + 1)
    }

    /** `prev` inverts `next`, but for chunk w, whose back link names the chunk one further
        back. */
    ghost predicate BackLinkedBut(w: int)
      reads this`chunks, chunks
    {
      forall k {:trigger chunks[k].prev} :: 0 <= k < |chunks| ==>
        chunks[k].prev == Link(chunks, if k == w then k - 2 else k - 1)
    }

    /** `prev` inverts `next`. */
    ghost predicate BackLinked()
      reads this`chunks, chunks
    {
      BackLinkedBut(-1)
    }

    ghost function Layout(): (s: seq<Block>)
      reads this`chunks, chunks
      ensures |s| == |chunks|
      ensures forall i {:trigger s[i]} :: 0 <= i < |s| ==> s[i] == chunks[i].Image()
    {
      Images(chunks)
    }

    lemma LayoutIs(s: seq<Block>)
      requires |s| == |chunks| && forall i :: 0 <= i < |s| ==> s[i] == chunks[i].Image()
      ensures Layout() == s
    {
    }

    constructor (start: u32, size: u32)
      ensures this.start == start && memorySize == size && usedMemory == 0
      ensures Linked() && BackLinked() && fresh(chunks)
      ensures Layout() == if size < H then [] else [Block(start, size - H, false)]
    {
      this.start := start;
      memorySize := size;
      usedMemory := 0;
      first := null;
      chunks := [];
      new;
      if size >= H {
        var chunk := new MemoryChunk(start);
        chunk.live, chunk.prev, chunk.next, chunk.size := false, null, null, size - H;
        first := chunk;
        chunks := [chunk];
      }
    }

    /** The walk of malloc: the first free chunk with more than n bytes. */
    method Search(n: u32) returns (result: MemoryChunk?, ghost k: nat)
      requires Linked()
      ensures k == FirstFit(Layout(), n)
      ensures result == if k < |chunks| then chunks[k] else null
    {
      result := null;
      var chunk := first;
      ghost var i := 0;
      while chunk != null && result == null
        invariant i <= |chunks|
        invariant result == null ==>
                    && chunk == (if i < |chunks| then chunks[i] else null)
                    && forall m :: 0 <= m < i ==> chunks[m].live || chunks[m].size <= n
        invariant result != null ==>
                    && 0 < i && result == chunks[i - 1] && !result.live && result.size > n
                    && forall m :: 0 <= m < i - 1 ==> chunks[m].live || chunks[m].size <= n
        decreases |chunks| - i
      {
        if chunk.size > n && !chunk.live {
          result := chunk;
        }
        chunk := chunk.next;
        i := i + 1;
      }
      k := FirstFit(Layout(), n);
      assert forall m :: 0 <= m < |chunks| ==> Layout()[m] == chunks[m].Image();
    }

    /** The field writes of the split, read as a change of the list `all` with layout s. */
    lemma Carved(all: seq<MemoryChunk>, s: seq<Block>, temp: MemoryChunk, n: u32, k: nat)
      requires Listed(all) && |s| == |all| && k < |all| && temp !in all
      requires chunks == Insert(all, k + 1, temp)
      requires temp.Image() == Block(s[k].addr + H + n, Wrap(s[k].size - H - n), false)
      requires temp.prev == all[k] && temp.next == Link(all, k + 1)
      requires all[k].Image() == Block(s[k].addr, n, true) && all[k].next == temp && all[k].prev == Link(all, k - 1)
      requires forall m {:trigger s[m]} :: 0 <= m < |all| && m != k ==> all[m].Image() == s[m]
      requires forall m {:trigger all[m].next} :: 0 <= m < |all| && m != k ==> all[m].next == Link(all, m + 1)
      requires forall m {:trigger all[m].prev} :: 0 <= m < |all| && m != k ==>
                 all[m].prev == if m == k + 1 then temp else Link(all, m - 1)
      ensures Linked() && BackLinked() && Layout() == Split(s, k, n)
    {
      forall m | 0 <= m < |chunks|
        ensures chunks[m].next == Link(chunks, m + 1) && chunks[m].prev == Link(chunks, m - 1)
        ensures Split(s, k, n)[m] == chunks[m].Image()
      {
        assert chunks[m] == if m <= k then all[m] else if m == k + 1 then temp else all[m - 1];
      }
      LayoutIs(Split(s, k, n));
    }

    /** The split of malloc, on the chunk the walk found. */
    method Carve(result: MemoryChunk, n: u32, ghost k: nat)
      requires Linked() && BackLinked() && k < |chunks| && chunks[k] == result
      modifies chunks, this`chunks
      ensures Linked() && BackLinked()
      ensures |chunks| == |old(chunks)| + 1 && fresh(chunks[k + 1])
      ensures chunks == Insert(old(chunks), k + 1, chunks[k + 1])
      ensures Layout() == Split(old(Layout()), k, n)
    {
      var temp := new MemoryChunk(result.addr + H + n);
      temp.prev := result;
      temp.next := result.next;
      temp.live := false;
      temp.size := Wrap(result.size - H - n);
      if temp.next != null {
        temp.next.prev := temp;
      }
      result.next := temp;
      result.live := true;
      result.size := n;
      ghost var all := chunks;
      chunks := Insert(all, k + 1, temp);
      Carved(all, old(Layout()), temp, n, k);
    }

    lemma AcceptsIff(n: u32)
      ensures Accepts(Layout(), usedMemory, memorySize, n) <==>
              && (usedMemory + n + 20) % 0x1_0000_0000 < memorySize
              && exists i :: 0 <= i < |chunks| && !chunks[i].live && chunks[i].size > n
    {
      var s, k := Layout(), FirstFit(Layout(), n);
      forall i | 0 <= i < |chunks|
        ensures s[i].live == chunks[i].live && s[i].size == chunks[i].size
      {
        assert s[i] == chunks[i].Image();
      }
    }

    /** First-fit search and split. The result is the header in front of the payload that the
        original returns, null for failure. */
    method Malloc(n: u32) returns (result: MemoryChunk?)
      requires Linked() && BackLinked()
      modifies this, chunks
      ensures Linked() && BackLinked()
      ensures result != null <==> Accepts(old(Layout()), old(usedMemory), memorySize, n)
      // In plain numbers: the usage guard, and whether there is a free chunk with more bytes.
      ensures result != null <==>
                && (old(usedMemory) + n + 20) % 0x1_0000_0000 < memorySize
                && exists i :: 0 <= i < |old(chunks)| && !old(chunks[i].live) && old(chunks[i].size) > n
      ensures result == null ==> unchanged(this) && unchanged(chunks)
      ensures result != null ==>
                var k := FirstFit(old(Layout()), n);
                && |chunks| == |old(chunks)| + 1 && fresh(chunks[k + 1])
                && result == old(chunks)[k]
                && chunks == Insert(old(chunks), k + 1, chunks[k + 1])
                && Layout() == Split(old(Layout()), k, n)
                && usedMemory == Wrap(old(usedMemory) + n + H)
    {
      AcceptsIff(n);
      if Wrap(usedMemory + n + H) >= memorySize {
        return null;
      }
      ghost var k;
      result, k := Search(n);
      if result == null {
        return;
      }
      Carve(result, n, k);
      usedMemory := Wrap(usedMemory + n + H);
    }

    /** The field writes of a merge, read as a change of the list `all` with layout s: the forward
        links, */
    lemma TakenNext(all: seq<MemoryChunk>, j: nat, i: nat)
      requires Listed(all) && j < i < |all| && chunks == Cut(all, j, i)
      requires all[j].next == Link(all, i + 1)
      requires forall m {:trigger all[m].next} :: 0 <= m < |all| && m != j && m != i ==> all[m].next == Link(all, m + 1)
      ensures Linked()
    {
      forall k | 0 <= k < |chunks|
        ensures chunks[k].next == Link(chunks, k + 1)
      {
        assert chunks[k] == all[if k <= j then k else k + i - j];
      }
    }

    /** the sizes and flags, */
    lemma TakenLayout(all: seq<MemoryChunk>, s: seq<Block>, j: nat, i: nat)
      requires |s| == |all| && j < i < |all| && chunks == Cut(all, j, i)
      requires all[j].Image() == s[j].(size := s[j].size + H + s[i].size)
      requires forall m {:trigger s[m]} :: 0 <= m < |all| && m != j && m != i ==> all[m].Image() == s[m]
      ensures Layout() == Absorb(s, j, i)
    {
      LayoutIs(Absorb(s, j, i));
    }

    /** and the back links of a merge of neighbours, where the chunk behind them is linked back to
        prevLink. */
    lemma TakenPrev(all: seq<MemoryChunk>, prevLink: MemoryChunk?, j: nat)
      requires Listed(all) && j + 1 < |all| && chunks == Cut(all, j, j + 1)
      requires all[j].prev == Link(all, j - 1)
      requires forall m {:trigger all[m].prev} :: 0 <= m < |all| && m != j && m != j + 1 ==>
                 all[m].prev == if m == j + 2 then prevLink else Link(all, m - 1)
      ensures prevLink == all[j] ==> BackLinked()
      ensures prevLink == Link(all, j - 1) ==> BackLinkedBut(j + 1) && (j + 2 < |all| ==> !BackLinked())
    {
      forall k | 0 <= k < |chunks|
        ensures chunks[k].prev == if k == j + 1 then prevLink else Link(chunks, k - 1)
      {
        assert chunks[k] == all[if k <= j then k else k + 1];
      }
      if prevLink == Link(all, j - 1) && j + 2 < |all| {
        assert chunks[j + 1].prev != chunks[j];
      }
    }

    /** What both merges of free do: `taker` takes over `gone`, and the chunk behind that gets
        a new back link. */
    method TakeOver(taker: MemoryChunk, gone: MemoryChunk, prevLink: MemoryChunk?, ghost j: nat, ghost i: nat)
      requires Linked() && j < i < |chunks| && chunks[j] == taker && chunks[i] == gone
      modifies chunks, this`chunks
      ensures Linked() && Layout() == Absorb(old(Layout()), j, i) && chunks == Cut(old(chunks), j, i)
      ensures taker.prev == old(taker.prev) && gone.prev == old(gone.prev)
      ensures forall x {:trigger x.Image()} :: x in old(chunks) && x != taker ==> x.Image() == old(x.Image())
      ensures old(BackLinked()) && i == j + 1 && prevLink == taker ==> BackLinked()
      ensures old(BackLinked()) && i == j + 1 && prevLink == old(taker.prev) ==>
                BackLinkedBut(i) && (i < |chunks| ==> !BackLinked())
    {
      taker.size := taker.size + gone.size + H;
      taker.next := gone.next;
      if gone.next != null {
        gone.next.prev := prevLink;
      }
      ghost var all := chunks;
      chunks := Cut(all, j, i);
      TakenNext(all, j, i);
      TakenLayout(all, old(Layout()), j, i);
      if old(BackLinked()) && i == j + 1 {
        TakenPrev(all, prevLink, j);
      }
    }

    /** The first half of free: release the chunk and, when the test says so, let the chunk its
        back link names take it over. */
    method MergeBack(test: Form, freed: MemoryChunk, ghost i: nat, ghost j: int)
      returns (chunk: MemoryChunk, ghost c: nat)
      requires Linked() && -1 <= j < i < |chunks|
      requires chunks[i] == freed && freed.prev == Link(chunks, j)
      modifies chunks, this`chunks
      ensures Linked() && (Layout(), c) == Backward(test, old(Layout()), i, j)
      ensures chunks == KeptBack(test, old(Layout()), old(chunks), i, j) && chunks[c] == chunk == old(chunks)[c]
      ensures chunk.prev == old(chunks[Backward(test, Layout(), i, j).1].prev)
      ensures forall x {:trigger x.Image()} ::
                x in old(chunks) && x != freed && x != chunk ==> x.Image() == old(x.Image())
      ensures old(BackLinked()) && j == i - 1 ==> BackLinked()
    {
      chunk, c := freed, i;
      chunk.live := false;
      ghost var s := old(Layout());
      LayoutIs(s[i := s[i].(live := false)]);
      if chunk.prev != null && chunk.prev.live == test.Written? {
        TakeOver(chunk.prev, chunk, chunk.prev, j, i);
        chunk, c := freed.prev, j;
      }
    }

    /** The second half of free: take over a free successor. Line 96 chooses the back link. */
    method MergeForward(link: Form, chunk: MemoryChunk, ghost c: nat)
      requires Linked() && c < |chunks| && chunks[c] == chunk
      modifies chunks, this`chunks
      ensures Linked() && Layout() == Forward(old(Layout()), c)
      ensures chunks == KeptForward(old(Layout()), old(chunks), c) && chunk.prev == old(chunk.prev)
      ensures forall x {:trigger x.Image()} :: x in old(chunks) && x != chunk ==> x.Image() == old(x.Image())
      ensures old(BackLinked()) ==>
                var s := old(Layout());
                var w := if link.Written? then Behind(s, c) else -1;
                w < |chunks| && BackLinkedBut(w) && (BackLinked() <==> w == -1)
    {
      if chunk.next != null && !chunk.next.live {
        TakeOver(chunk, chunk.next, if link.Written? then chunk.prev else chunk, c, c + 1);
      }
    }

    /** free, with line 80 under `test` and line 96 under `link` as written or as intended. The
        caller's pointer fixes the chunk; i is its place on the list and j that of the chunk its
        back link names. The contract covers lists whose back links have already gone wrong. */
    method Free(test: Form, link: Form, freed: MemoryChunk, ghost i: nat, ghost j: int)
      requires Linked() && -1 <= j < i < |chunks|
      requires chunks[i] == freed && freed.prev == Link(chunks, j)
      modifies chunks, this`chunks
      ensures Linked()
      ensures Layout() == FreeAt(test, old(Layout()), i, j)
      ensures chunks == Survivors(test, old(Layout()), old(chunks), i, j)
      ensures var c := Backward(test, old(Layout()), i, j).1;
              && c < |chunks| && chunks[c] == old(chunks)[c]
              && chunks[c].prev == old(chunks[Backward(test, Layout(), i, j).1].prev)
              && forall x :: x in old(chunks) && x != freed && x != chunks[c] ==> x.Image() == old(x.Image())
      // The back links survive unless line 96 is as written and has a link to set; then that
      // one link names the chunk before the one it should.
      ensures old(BackLinked()) && j == i - 1 ==>
                var w := if link.Written? then Relinked(test, old(Layout()), i) else -1;
                w < |chunks| && BackLinkedBut(w) && (BackLinked() <==> w == -1)
    {
      var chunk;
      ghost var c;
      chunk, c := MergeBack(test, freed, i, j);
      MergeForward(link, chunk, c);
    }
  }
}
