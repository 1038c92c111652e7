/** The kernel heap seen as a list of blocks in address order: what malloc and free do to
    that list, and what holds over every run of them. */
module HeapLayout {
  import opened Machine

  /** Size of a chunk header on i686: two pointers, the magic, a padded bool and the size. */
  const H: nat := 20

  datatype Block = Block(addr: int, size: nat, live: bool) {
    function Payload(): int {
      addr + H
    }

    function End(): int {
      addr + H + size
    }
  }

  /** The predecessor test that free uses before merging backwards: as written it asks for an
      allocated predecessor, the intent is a free one. */
  predicate Merges(test: Form, b: Block) {
    b.live == test.Written?
  }

  // ----- Well-formed lists

  /** The blocks cover [start, end) exactly, in order. */
  ghost predicate Tiles(s: seq<Block>, start: int, end: int) {
    && |s| > 0
    && s[0].addr == start
    && s[|s| - 1].End() == end
    && forall i :: 0 <= i < |s| - 1 ==> s[i + 1].addr == s[i].End()
  }

  /** No two neighbours are both free. */
  ghost predicate Coalesced(s: seq<Block>) {
    forall i :: 0 <= i < |s| - 1 ==> s[i].live || s[i + 1].live
  }

  /** Bytes taken by headers and payloads together. */
  function Footprint(s: seq<Block>): nat {
    if s == [] then 0 else H + s[0].size + Footprint(s[1..])
  }

  // ----- List surgery

  /** t with x put in front of its k-th element. */
  function Insert<T>(t: seq<T>, k: nat, x: T): seq<T>
    requires k <= |t|
  {
    seq(|t| + 1, m requires 0 <= m <= |t| => if m < k then t[m] else if m == k then x else t[m - 1])
  }

  /** t without the elements after the j-th, up to and including the i-th. */
  function Cut<T>(t: seq<T>, j: nat, i: nat): seq<T>
    requires j < i < |t|
  {
    seq(|t| - (i - j), m requires 0 <= m < |t| - (i - j) => if m <= j then t[m] else t[m + i - j])
  }

  // ----- The operations

  /** The chunk the first-fit walk settles on, or |s| when there is none. */
  function FirstFit(s: seq<Block>, n: nat): (k: nat)
    ensures k <= |s|
    ensures k < |s| ==> !s[k].live && s[k].size > n
    ensures forall i :: 0 <= i < k ==> s[i].live || s[i].size <= n
  {
    FirstFitFrom(s, n, 0)
  }

  function FirstFitFrom(s: seq<Block>, n: nat, at: nat): (k: nat)
    requires at <= |s|
    ensures at <= k <= |s|
    ensures k < |s| ==> !s[k].live && s[k].size > n
    ensures forall i :: at <= i < k ==> s[i].live || s[i].size <= n
    decreases |s| - at
  {
    if at == |s| || (!s[at].live && s[at].size > n) then at else FirstFitFrom(s, n, at + 1)
  }

  /** malloc's two reasons to fail: the usage guard, in wrapping arithmetic, and the search. */
  predicate Guard(used: u32, memorySize: u32, n: u32) {
    Wrap(used + n + H) < memorySize
  }

  predicate Accepts(s: seq<Block>, used: u32, memorySize: u32, n: u32) {
    Guard(used, memorySize, n) && FirstFit(s, n) < |s|
  }

  /** Cuts block i into a live block of n bytes and a free remainder, whose size field is
      computed in unsigned 32-bit arithmetic. */
  function Split(s: seq<Block>, i: nat, n: nat): seq<Block>
    requires i < |s|
  {
    var b := s[i];
    Insert(s[i := Block(b.addr, n, true)], i + 1, Block(b.addr + H + n, Wrap(b.size - H - n), false))
  }

  /** Block j takes over block i, and every block between them drops out of the list. With
      j == i - 1 this is the ordinary merge of neighbours. */
  function Absorb(s: seq<Block>, j: nat, i: nat): seq<Block>
    requires j < i < |s|
  {
    Cut(s[j := s[j].(size := s[j].size + H + s[i].size)], j, i)
  }

  /** The first half of free: release block i, then fold it into the block j its back link
      names (-1 for none) when the test says so. */
  function Backward(test: Form, s: seq<Block>, i: nat, j: int): (r: (seq<Block>, nat))
    requires -1 <= j < i < |s|
    ensures r.1 < |r.0|
  {
    var s1 := s[i := s[i].(live := false)];
    if j >= 0 && Merges(test, s[j]) then (Absorb(s1, j, i), j) else (s1, i)
  }

  /** The second half: fold a free successor of block c into it. */
  function Forward(s: seq<Block>, c: nat): seq<Block>
    requires c < |s|
  {
    if c + 1 < |s| && !s[c + 1].live then Absorb(s, c, c + 1) else s
  }

  function FreeAt(test: Form, s: seq<Block>, i: nat, j: int): seq<Block>
    requires -1 <= j < i < |s|
  {
    var r := Backward(test, s, i, j);
    Forward(r.0, r.1)
  }

  /** Freeing block i of a list whose back links are right. */
  function Free(test: Form, s: seq<Block>, i: nat): seq<Block>
    requires i < |s|
  {
    FreeAt(test, s, i, i - 1)
  }

  // ----- Geometry of a tiling

  lemma {:induction false} InOrder(s: seq<Block>, start: int, end: int, i: nat, j: nat)
    requires Tiles(s, start, end) && i < j < |s|
    ensures s[i].End() <= s[j].addr
    decreases j
  {
    if i < j - 1 {
      InOrder(s, start, end, i, j - 1);
    }
    assert s[j - 1 + 1].addr == s[j - 1].End();
  }

  /** A block is inside the region, so no size field can exceed the memory size. */
  lemma Inside(s: seq<Block>, start: int, end: int, i: nat)
    requires Tiles(s, start, end) && i < |s|
    ensures start <= s[i].addr && s[i].End() <= end
  {
    if i > 0 {
      InOrder(s, start, end, 0, i);
    }
    if i < |s| - 1 {
      InOrder(s, start, end, i, |s| - 1);
    }
  }

  /** Conservation: headers and payloads together always fill the region exactly. */
  lemma {:induction false} Conservation(s: seq<Block>, start: int, end: int)
    requires Tiles(s, start, end)
    ensures Footprint(s) == end - start
  {
    if |s| == 1 {
      assert Footprint(s[1..]) == 0;
    } else {
      var t := s[1..];
      forall i | 0 <= i < |t| - 1
        ensures t[i + 1].addr == t[i].End()
      {
        assert s[i + 1 + 1].addr == s[i + 1].End();
      }
      assert t[0].addr == s[0 + 1].addr == s[0].End();
      Conservation(t, s[0].End(), end);
    }
  }

  lemma Overshoots(s: seq<Block>, start: int, end: int, i: nat)
    requires i < |s| && s[i].End() > end
    ensures !Tiles(s, start, end)
  {
    if Tiles(s, start, end) {
      Inside(s, start, end, i);
      assert false;
    }
  }

  /** Splitting keeps the tiling exactly when the new header fits into the chosen chunk. The
      search only asks for one byte more than the request. */
  lemma SplitTiles(s: seq<Block>, start: int, end: int, i: nat, n: nat)
    requires Tiles(s, start, end) && end - start < WORD
    requires i < |s| && n < s[i].size
    ensures Tiles(Split(s, i, n), start, end) <==> n + H <= s[i].size
  {
    Inside(s, start, end, i);
    var t := Split(s, i, n);
    forall k | 0 <= k < |t| - 1 && k != i && k != i + 1
      ensures t[k + 1].addr == t[k].End()
    {
      if k < i {
        assert s[k + 1].addr == s[k].End();
      } else {
        assert t[k] == s[k - 1] && t[k + 1] == s[k];
        assert s[k - 1 + 1].addr == s[k - 1].End();
      }
    }
    if i + 1 < |s| {
      assert t[i + 1 + 1] == s[i + 1];
      assert s[i + 1].addr == s[i].End();
    }
    assert t[i + 1].addr == t[i].End();
    if n + H <= s[i].size {
      assert t[i + 1].End() == s[i].End();
    } else {
      assert t[i + 1].size == s[i].size - H - n + WORD;
      assert t[i + 1].End() > end;
      Overshoots(t, start, end, i + 1);
    }
  }

  lemma AbsorbTiles(s: seq<Block>, start: int, end: int, j: nat)
    requires Tiles(s, start, end) && j + 1 < |s|
    ensures Tiles(Absorb(s, j, j + 1), start, end)
  {
    var t := Absorb(s, j, j + 1);
    assert s[j + 1].addr == s[j].End();
    forall k | 0 <= k < |t| - 1
      ensures t[k + 1].addr == t[k].End()
    {
      if k < j {
        assert s[k + 1].addr == s[k].End();
      } else {
        assert s[k + 1 + 1].addr == s[k + 1].End();
      }
    }
  }

  lemma ReleasedTiles(s: seq<Block>, start: int, end: int, i: nat)
    requires Tiles(s, start, end) && i < |s|
    ensures Tiles(s[i := s[i].(live := false)], start, end)
  {
    var s1 := s[i := s[i].(live := false)];
    forall k | 0 <= k < |s1| - 1
      ensures s1[k + 1].addr == s1[k].End()
    {
      assert s[k + 1].addr == s[k].End();
    }
  }

  lemma ForwardTiles(s: seq<Block>, start: int, end: int, c: nat)
    requires Tiles(s, start, end) && c < |s|
    ensures Tiles(Forward(s, c), start, end)
  {
    if c + 1 < |s| {
      AbsorbTiles(s, start, end, c);
    }
  }

  /** Freeing keeps the tiling under either predecessor test. */
  lemma FreeTiles(test: Form, s: seq<Block>, start: int, end: int, i: nat)
    requires Tiles(s, start, end) && i < |s|
    ensures Tiles(Free(test, s, i), start, end)
  {
    ReleasedTiles(s, start, end, i);
    var s1 := s[i := s[i].(live := false)];
    if i > 0 && Merges(test, s[i - 1]) {
      AbsorbTiles(s1, start, end, i - 1);
    }
    var r := Backward(test, s, i, i - 1);
    ForwardTiles(r.0, start, end, r.1);
  }

  /** A back link that skips blocks does harm when the chunk it names takes over: the blocks
      skipped belong to nobody, and the freed bytes are counted in the wrong place. */
  lemma SkippingBreaks(test: Form, s: seq<Block>, start: int, end: int, i: nat, j: nat)
    requires Tiles(s, start, end) && j < i - 1 < |s| - 1 && Merges(test, s[j])
    ensures !Tiles(FreeAt(test, s, i, j), start, end)
  {
    var r := Absorb(s[i := s[i].(live := false)], j, i);
    var t := Forward(r, j);
    InOrder(s, start, end, j, j + 1);
    InOrder(s, start, end, j + 1, i);
    if i + 1 < |s| {
      assert r[j + 1] == s[i + 1] && s[i + 1].addr == s[i].End();
      if i + 2 < |s| {
        assert s[i + 1 + 1].addr == s[i + 1].End();
      }
    }
    if j + 1 < |t| {
      assert t[j + 1] == s[j + 1 + |s| - |t|];
      assert t[j + 1].addr != t[j].End();
    } else {
      assert t[|t| - 1].End() != end;
    }
  }

  /** Freeing block i keeps the tiling if and only if its back link names the block in front, or
      none, or one that the predecessor test does not let take over. */
  lemma FreeAtTilesIff(test: Form, s: seq<Block>, start: int, end: int, i: nat, j: int)
    requires Tiles(s, start, end) && -1 <= j < i < |s|
    ensures Tiles(FreeAt(test, s, i, j), start, end) <==> j == i - 1 || j == -1 || !Merges(test, s[j])
  {
    if j == i - 1 {
      FreeTiles(test, s, start, end, i);
    } else if j == -1 || !Merges(test, s[j]) {
      ReleasedTiles(s, start, end, i);
      ForwardTiles(s[i := s[i].(live := false)], start, end, i);
    } else {
      SkippingBreaks(test, s, start, end, i, j);
    }
  }

  // ----- The intended test: coalescing, restoration, canonical form

  lemma SplitCoalesced(s: seq<Block>, i: nat, n: nat)
    requires Coalesced(s) && i < |s| && !s[i].live
    ensures Coalesced(Split(s, i, n))
  {
    var t := Split(s, i, n);
    forall k | 0 <= k < |t| - 1
      ensures t[k].live || t[k + 1].live
    {
      if k < i - 1 {
        assert s[k].live || s[k + 1].live;
      } else if k == i + 1 {
        assert s[i].live || s[i + 1].live;
      } else if k > i + 1 {
        assert s[k - 1].live || s[k - 1 + 1].live;
      }
    }
  }

  /** After the backward merge only block c and its successor can both be free. */
  lemma BackwardCoalesced(s: seq<Block>, i: nat)
    requires Coalesced(s) && i < |s| && s[i].live
    ensures var (r, c) := Backward(Intended, s, i, i - 1);
            !r[c].live && forall k :: 0 <= k < |r| - 1 && k != c ==> r[k].live || r[k + 1].live
  {
    var (r, c) := Backward(Intended, s, i, i - 1);
    forall k | 0 <= k < |r| - 1 && k != c
      ensures r[k].live || r[k + 1].live
    {
      if k + 1 == i && c == i {
        assert r[k] == s[i - 1];
      } else if k < c {
        assert s[k].live || s[k + 1].live;
        assert r[k] == s[k];
      } else {
        var d := |s| - |r|;
        assert r[k] == s[k + d] && r[k + 1] == s[k + d + 1];
        assert s[k + d].live || s[k + d + 1].live;
      }
    }
  }

  lemma FreeCoalesced(s: seq<Block>, i: nat)
    requires Coalesced(s) && i < |s| && s[i].live
    ensures Coalesced(Free(Intended, s, i))
  {
    BackwardCoalesced(s, i);
    var (r, c) := Backward(Intended, s, i, i - 1);
    var t := Forward(r, c);
    var e := |r| - |t|;
    forall k | 0 <= k < |t| - 1
      ensures t[k].live || t[k + 1].live
    {
      if k < c {
        assert r[k].live || r[k + 1].live;
      } else if k > c || e == 1 {
        assert t[k + 1] == r[k + 1 + e];
        assert r[k + e].live || r[k + e + 1].live;
      }
    }
  }

  /** malloc followed at once by free of its result gives back the very same list. */
  lemma MallocFreeRestores(s: seq<Block>, i: nat, n: nat)
    requires Coalesced(s) && i < |s| && !s[i].live && n + H <= s[i].size < WORD
    ensures Free(Intended, Split(s, i, n), i) == s
  {
    if i > 0 {
      assert s[i - 1 + 1] == s[i];
    }
  }

  /** With the test as written the same pair of calls restores the list exactly when the block
      has no live predecessor. */
  lemma WrittenRestoresIff(s: seq<Block>, i: nat, n: nat)
    requires i < |s| && !s[i].live && n + H <= s[i].size < WORD
    ensures Free(Written, Split(s, i, n), i) == s <==> i == 0 || !s[i - 1].live
  {
    var t := Split(s, i, n);
    if i > 0 && s[i - 1].live {
      FreeLength(Written, t, i);
    }
  }

  lemma FreeLength(test: Form, s: seq<Block>, i: nat)
    requires i < |s|
    ensures |Free(test, s, i)| + (if i > 0 && Merges(test, s[i - 1]) then 1 else 0)
                               + (if i + 1 < |s| && !s[i + 1].live then 1 else 0) == |s|
  {
  }

  /** The written test does what was meant only for the first block of the heap. */
  lemma WrittenAgreesIff(s: seq<Block>, i: nat)
    requires i < |s|
    ensures Free(Written, s, i) == Free(Intended, s, i) <==> i == 0
  {
    FreeLength(Written, s, i);
    FreeLength(Intended, s, i);
  }
}
