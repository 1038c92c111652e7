/** The physical page allocator: a bitmap of 4 KB frames, filled in from the boot loader's memory
    map and searched first-fit. */
module FrameAllocator {
  import opened Machine
  import opened Bitmap

  /** MULTIBOOT_MEMORY_AVAILABLE, the one kind of region that may be used. Blocks are 4096 bytes
      and eight of them share a byte of the map throughout. */
  const AVAILABLE: nat := 1

  // ----- The memory map

  /** A multiboot map entry, low halves only, as the allocator reads it. */
  datatype Region = Region(size: u32, address: u32, length: u32, kind: u32) {
    function Base(): nat {
      address / 4096
    }

    function Blocks(): nat {
      length / 4096
    }

    /** How the entry moves the counter: up for freed frames, down for used ones. */
    function Drift(): int {
      if kind == AVAILABLE then Blocks() else 0 - Blocks()
    }

    predicate Covers(f: nat) {
      Base() <= f < Base() + Blocks()
    }
  }

  /** The entries met when walking a map of `length` bytes from offset `off`: each names its own
      size, which does not count the size field itself. */
  function Entries(image: nat -> Region, off: nat, length: nat): seq<Region>
    decreases length - off
  {
    if off >= length then [] else [image(off)] + Entries(image, off + image(off).size + 4, length)
  }

  lemma NextEntry(image: nat -> Region, off: nat, length: nat, entries: seq<Region>, n: nat)
    requires off < length && n <= |entries| && Entries(image, off, length) == entries[n..]
    ensures n < |entries| && entries[n] == image(off) && entries[..n + 1] == entries[..n] + [image(off)]
    ensures Entries(image, off + image(off).size + 4, length) == entries[n + 1..]
  {
    assert entries[n..][0] == image(off) && entries[n..][1..] == entries[n + 1..];
  }

  /** What reserving the first 2 MB does to the counter. */
  lemma CountReserved(count: int)
    ensures Wrap(Wrap(count) - 0x20_0000 / 4096) == Wrap(count - 512)
  {
    WrapSub(count, 512);
  }

  /** Whether frame f ends up used: the last entry covering it decides, and only an Available
      entry frees it. */
  function Status(entries: seq<Region>, f: nat, initially: bool): bool {
    if entries == [] then initially
    else
      var last := entries[|entries| - 1];
      if last.Covers(f) then last.kind != AVAILABLE else Status(entries[..|entries| - 1], f, initially)
  }

  /** The status in plain terms: type 1 is available, and blocks are 4096 bytes. */
  lemma {:induction false} LastDecides(entries: seq<Region>, f: nat, initially: bool, i: nat)
    requires i <= |entries|
    requires forall j :: i <= j < |entries| ==>
               !(entries[j].address / 4096 <= f < entries[j].address / 4096 + entries[j].length / 4096)
    ensures i == 0 ==> Status(entries, f, initially) == initially
    ensures i > 0 ==>
              var e := entries[i - 1];
              e.address / 4096 <= f < e.address / 4096 + e.length / 4096 ==>
                (Status(entries, f, initially) <==> e.kind != 1)
    decreases |entries|
  {
    if i < |entries| {
      LastDecides(entries[..|entries| - 1], f, initially, i);
    }
  }

  function Drift(entries: seq<Region>): int {
    if entries == [] then 0 else Drift(entries[..|entries| - 1]) + entries[|entries| - 1].Drift()
  }

  // ----- The search, on sets of frames

  /** A run of n frames from b, all free and all inside the readable map of `frames` frames. */
  ghost predicate Fits(used: set<nat>, frames: nat, b: nat, n: nat) {
    b + n <= frames && Interval(b, n) !! used
  }

  /** In plain terms. */
  lemma FitsIff(used: set<nat>, frames: nat, b: nat, n: nat)
    ensures Fits(used, frames, b, n) <==> b + n <= frames && forall k: nat :: b <= k < b + n ==> k !in used
  {
    forall k: nat | b <= k < b + n
      ensures k in Interval(b, n)
    {
      assert From(b, k);
    }
  }

  /** The first start below `limit` whose run fits. */
  ghost predicate FirstStart(used: set<nat>, frames: nat, limit: nat, n: nat, b: nat) {
    b < limit && Fits(used, frames, b, n) && forall c: nat :: c < b ==> !Fits(used, frames, c, n)
  }

  /** When a request for n frames fails: the block counter says none is free, nothing is asked
      for, or no start fits. */
  ghost predicate Refused(used: set<nat>, frames: nat, limit: nat, free: u32, n: u32) {
    free == 0 || n == 0 || forall b: nat :: b < limit ==> !Fits(used, frames, b, n)
  }

  /** The run of every start the search tries can be read: each free frame below `limit` up to
      the first start that fits. */
  ghost predicate Readable(used: set<nat>, frames: nat, limit: nat, n: nat) {
    forall b: nat ::
      b < limit && b !in used && (forall c: nat :: c < b ==> !Fits(used, frames, c, n)) ==> b + n <= frames
  }

  class Allocator {
    const memorySize: u32
    const memoryMap: array<u32>
    var usedBlocks: u32
    var maxBlocks: u32

    constructor (memorySize: u32, memoryMap: array<u32>)
      ensures this.memorySize == memorySize && this.memoryMap == memoryMap
    {
      this.memorySize, this.memoryMap := memorySize, memoryMap;
      usedBlocks, maxBlocks := 0, 0;
    }

    /** Frames of readable map memory, and the frames at which the search lets a run start. */
    function Size(): nat {
      32 * memoryMap.Length
    }

    function Limit(): nat {
      32 * (memorySize / 32 / 4096)
    }

    predicate Valid() {
      Limit() <= Size()
    }

    /** A group of 32 frames takes 0x20000 bytes. */
    lemma LimitIs()
      ensures forall b: nat :: b < Limit() <==> (b / 32 + 1) * 0x2_0000 <= memorySize
    {
      forall b: nat
        ensures b < Limit() <==> (b / 32 + 1) * 0x2_0000 <= memorySize
      {
        assert b < Limit() <==> b / 32 < memorySize / 32 / 4096;
        assert memorySize / 32 / 4096 == memorySize / 0x2_0000;
      }
    }

    ghost function Used(): set<nat>
      reads memoryMap
    {
      Frames(memoryMap[..])
    }

    method SetBit(bit: nat)
      requires bit < Size()
      modifies memoryMap
      ensures Used() == old(Used()) + {bit}
    {
      WriteFrames(memoryMap[..], bit, true);
      ghost var m := memoryMap[..];
      memoryMap[bit / 32] := WithDigit(memoryMap[bit / 32], bit % 32, true);
      assert memoryMap[..] == m[bit / 32 := WithDigit(m[bit / 32], bit % 32, true)];
    }

    method UnsetBit(bit: nat)
      requires bit < Size()
      modifies memoryMap
      ensures Used() == old(Used()) - {bit}
    {
      WriteFrames(memoryMap[..], bit, false);
      ghost var m := memoryMap[..];
      memoryMap[bit / 32] := WithDigit(memoryMap[bit / 32], bit % 32, false);
      assert memoryMap[..] == m[bit / 32 := WithDigit(m[bit / 32], bit % 32, false)];
    }

    predicate TestBit(bit: nat)
      requires bit < Size()
      reads memoryMap
      ensures TestBit(bit) <==> bit in Used()
    {
      assert Bit(memoryMap[..], bit) <==> Test(memoryMap[bit / 32], bit % 32);
      Test(memoryMap[bit / 32], bit % 32)
    }

    /** memset(memoryMap, 0x0F, count), which stores at indices count down to 1. */
    method FillBytes(count: nat)
      requires count < 4 * memoryMap.Length
      modifies memoryMap
      ensures forall k: nat :: k < Size() ==>
                (k in Used() <==> if 1 <= k / 8 <= count then FillDigit(k % 8) else k in old(Used()))
    {
      var i := count;
      while i != 0
        invariant 0 <= i <= count
        invariant forall k: nat :: k < Size() ==>
                    (k in Used() <==> if i < k / 8 <= count then FillDigit(k % 8) else k in old(Used()))
      {
        ghost var m := memoryMap[..];
        assert 0 <= i / 4 < memoryMap.Length;
        WordSize();
        StoredFits(memoryMap[i / 4], i % 4, 0);
        memoryMap[i / 4] := StoreByte(memoryMap[i / 4], i % 4, 0);
        assert memoryMap[..] == m[i / 4 := StoreByte(m[i / 4], i % 4, 0)];
        forall k: nat | k < Size()
          ensures k in Used() <==> if k / 8 == i then FillDigit(k % 8) else k in Frames(m)
        {
          StoreFrames(m, i, k);
        }
        i := i - 1;
      }
    }

    method SetRegionUsed(start: u32, size: u32)
      requires 1 <= Size() && start / 4096 + size / 4096 <= Size()
      modifies memoryMap, this`usedBlocks
      ensures Used() == old(Used()) + Interval(start / 4096, size / 4096) + {0}
      ensures usedBlocks == Wrap(old(usedBlocks) - size / 4096)
    {
      var base := start / 4096;
      var blocks := size / 4096;
      while blocks > 0
        invariant 0 <= blocks <= size / 4096 && base + blocks == start / 4096 + size / 4096
        invariant Used() == old(Used()) + Interval(start / 4096, size / 4096 - blocks)
        invariant usedBlocks == Wrap(old(usedBlocks) - (size / 4096 - blocks))
      {
        WrapSub(old(usedBlocks) - (size / 4096 - blocks), 1);
        SetBit(base);
        base := base + 1;
        usedBlocks := Wrap(usedBlocks - 1);
        blocks := blocks - 1;
      }
      SetBit(0);
    }

    method SetRegionFree(start: u32, size: u32)
      requires start / 4096 + size / 4096 <= Size()
      modifies memoryMap, this`usedBlocks
      ensures Used() == old(Used()) - Interval(start / 4096, size / 4096)
      ensures usedBlocks == Wrap(old(usedBlocks) + size / 4096)
    {
      var base := start / 4096;
      var blocks := size / 4096;
      while blocks > 0
        invariant 0 <= blocks <= size / 4096 && base + blocks == start / 4096 + size / 4096
        invariant Used() == old(Used()) - Interval(start / 4096, size / 4096 - blocks)
        invariant usedBlocks == Wrap(old(usedBlocks) + (size / 4096 - blocks))
      {
        WrapAdd(old(usedBlocks) + (size / 4096 - blocks), 1);
        UnsetBit(base);
        base := base + 1;
        usedBlocks := Wrap(usedBlocks + 1);
        blocks := blocks - 1;
      }
    }

    /** Whether frame k is marked before any entry is read: memset leaves byte 0 of the map
        alone and stores 0x0F in bytes 1 to maxBlocks / 8. */
    static function Prefilled(maxBlocks: nat, k: nat, before: bool): bool {
      if 1 <= k / 8 <= maxBlocks / 8 then FillDigit(k % 8) else before
    }

    /** The bitmap and the counter after reading the entries of `done`: frame 0 apart, from the
        set of frames used and the count found at the start. */
    ghost predicate HasRead(done: seq<Region>, used: set<nat>, count: u32)
      reads memoryMap, this`usedBlocks
    {
      && (forall f: nat :: 0 < f < Size() ==> (f in Used() <==> Status(done, f, f in used)))
      && usedBlocks == Wrap(count + Drift(done))
    }

    /** One turn of the walk. */
    method Apply(entry: Region, ghost done: seq<Region>, ghost used: set<nat>, ghost count: u32)
      requires 1 <= Size() && entry.Base() + entry.Blocks() <= Size()
      requires HasRead(done, used, count)
      modifies memoryMap, this`usedBlocks
      ensures HasRead(done + [entry], used, count)
    {
      if entry.kind == AVAILABLE {
        SetRegionFree(entry.address, entry.length);
      } else {
        SetRegionUsed(entry.address, entry.length);
      }
      Extend(done, entry);
      WrapAdd(count + Drift(done), entry.Drift());
    }

    /** The walk over the memory map. */
    method ReadMap(image: nat -> Region, length: u32)
      requires 1 <= Size() && forall e :: e in Entries(image, 0, length) ==> e.Base() + e.Blocks() <= Size()
      modifies memoryMap, this`usedBlocks
      ensures HasRead(Entries(image, 0, length), old(Used()), old(usedBlocks))
    {
      ghost var entries := Entries(image, 0, length);
      ghost var n := 0;
      WrapId(usedBlocks);
      var off: nat := 0;
      while off < length
        invariant n <= |entries| && Entries(image, off, length) == entries[n..]
        invariant HasRead(entries[..n], old(Used()), old(usedBlocks))
        decreases length - off
      {
        NextEntry(image, off, length, entries, n);
        Apply(image(off), entries[..n], old(Used()), old(usedBlocks));
        off := off + image(off).size + 4;
        n := n + 1;
      }
      assert entries[..n] == entries;
    }

    /** Fills the bitmap from the memory map. From frame 512 on, the last entry covering a frame
        decides, whatever the order and overlap of the entries; the frames below stay used. */
    method InitPMM(image: nat -> Region, length: u32)
      requires memorySize / 4096 / 8 < 4 * memoryMap.Length && 512 <= Size()
      requires forall e :: e in Entries(image, 0, length) ==> e.Base() + e.Blocks() <= Size()
      modifies memoryMap, this`usedBlocks, this`maxBlocks
      ensures maxBlocks == memorySize / 4096
      ensures forall f: nat :: f < 512 ==> f in Used()
      ensures forall f: nat :: 512 <= f < Size() ==>
                (f in Used() <==> Status(Entries(image, 0, length), f, Prefilled(maxBlocks, f, f in old(Used()))))
      ensures usedBlocks == Wrap(maxBlocks + Drift(Entries(image, 0, length)) - 512)
      // In plain numbers: frame f and the last entry i that covers it, and a frame that none does.
      ensures var entries := Entries(image, 0, length);
        forall f: nat, i: nat ::
          && 512 <= f < Size() && i < |entries|
          && entries[i].address / 4096 <= f < entries[i].address / 4096 + entries[i].length / 4096
          && (forall j :: i < j < |entries| ==>
                !(entries[j].address / 4096 <= f < entries[j].address / 4096 + entries[j].length / 4096))
          ==> (f in Used() <==> entries[i].kind != 1)
      ensures var entries := Entries(image, 0, length);
        forall f: nat ::
          && 512 <= f < Size()
          && (forall j :: 0 <= j < |entries| ==>
                !(entries[j].address / 4096 <= f < entries[j].address / 4096 + entries[j].length / 4096))
          ==> (f in Used() <==> if 1 <= f / 8 <= maxBlocks / 8 then f % 8 < 4 else f in old(Used()))
    {
      ghost var entries, before := Entries(image, 0, length), Used();
      maxBlocks := memorySize / 4096;
      usedBlocks := maxBlocks;
      FillBytes(maxBlocks / 8);
      ReadMap(image, length);
      ReserveLow(maxBlocks + Drift(entries));
      Decided(entries, maxBlocks, before);
    }

    /** What the status of each frame means in plain numbers. */
    lemma Decided(entries: seq<Region>, maxBlocks: nat, before: set<nat>)
      requires forall f: nat :: 512 <= f < Size() ==>
                 (f in Used() <==> Status(entries, f, Prefilled(maxBlocks, f, f in before)))
      ensures forall f: nat, i: nat ::
                && 512 <= f < Size() && i < |entries|
                && entries[i].address / 4096 <= f < entries[i].address / 4096 + entries[i].length / 4096
                && (forall j :: i < j < |entries| ==>
                      !(entries[j].address / 4096 <= f < entries[j].address / 4096 + entries[j].length / 4096))
                ==> (f in Used() <==> entries[i].kind != 1)
      ensures forall f: nat ::
                && 512 <= f < Size()
                && (forall j :: 0 <= j < |entries| ==>
                      !(entries[j].address / 4096 <= f < entries[j].address / 4096 + entries[j].length / 4096))
                ==> (f in Used() <==> if 1 <= f / 8 <= maxBlocks / 8 then f % 8 < 4 else f in before)
    {
      forall f: nat, i: nat |
        && 512 <= f < Size() && i < |entries|
        && entries[i].address / 4096 <= f < entries[i].address / 4096 + entries[i].length / 4096
        && (forall j :: i < j < |entries| ==>
              !(entries[j].address / 4096 <= f < entries[j].address / 4096 + entries[j].length / 4096))
        ensures f in Used() <==> entries[i].kind != 1
      {
        LastDecides(entries, f, Prefilled(maxBlocks, f, f in before), i + 1);
      }
      forall f: nat |
        && 512 <= f < Size()
        && (forall j :: 0 <= j < |entries| ==>
              !(entries[j].address / 4096 <= f < entries[j].address / 4096 + entries[j].length / 4096))
        ensures f in Used() <==> if 1 <= f / 8 <= maxBlocks / 8 then f % 8 < 4 else f in before
      {
        LastDecides(entries, f, Prefilled(maxBlocks, f, f in before), 0);
      }
    }

    /** The reservation at the end of initPMM. */
    method ReserveLow(ghost count: int)
      requires 512 <= Size() && usedBlocks == Wrap(count)
      modifies memoryMap, this`usedBlocks
      ensures forall f: nat :: f < Size() ==> (f in Used() <==> f < 512 || f in old(Used()))
      ensures usedBlocks == Wrap(count - 512)
    {
      CountReserved(count);
      SetRegionUsed(0, 0x20_0000);
    }

    static lemma Extend(done: seq<Region>, entry: Region)
      ensures forall f, i :: Status(done + [entry], f, i)
                          == if entry.Covers(f) then entry.kind != AVAILABLE else Status(done, f, i)
      ensures Drift(done + [entry]) == Drift(done) + entry.Drift()
    {
      assert (done + [entry])[..|done + [entry]| - 1] == done;
    }

    function GetFreeBlockCount(): u32
      reads this`maxBlocks, this`usedBlocks
    {
      Wrap(maxBlocks - usedBlocks)
    }

    /** First fit over the bitmap, -1 for none. The word skip and the way the inner loop counts
        to `size` do not change what is found. */
    method FirstFreePhysicalPagesBits(size: u32) returns (start: int)
      requires Valid() && Readable(Used(), Size(), Limit(), size)
      ensures start == -1 || 0 <= start
      ensures 0 <= start ==> size > 0 && FirstStart(Used(), Size(), Limit(), size, start)
      ensures start == -1 <==> size == 0 || forall b: nat :: b < Limit() ==> !Fits(Used(), Size(), b, size)
      // In plain numbers: a run may start in any group of 32 frames that lies in memory.
      ensures start >= 0 ==> (start / 32 + 1) * 0x2_0000 <= memorySize
      ensures start == -1 && size > 0 ==>
                forall b: nat :: (b / 32 + 1) * 0x2_0000 <= memorySize ==> !Fits(Used(), Size(), b, size)
    {
      LimitIs();
      if size == 0 {
        return -1;
      }
      ghost var used := Used();
      for i := 0 to memorySize / 32 / 4096
        invariant forall b: nat :: b < 32 * i ==> !Fits(used, Size(), b, size)
      {
        if memoryMap[i] != 0xFFFF_FFFF {
          for j := 0 to 32
            invariant forall b: nat :: b < 32 * i + j ==> !Fits(used, Size(), b, size)
          {
            var currentBit := 32 * i + j;
            if !Test(memoryMap[i], j) {
              assert !TestBit(currentBit);
              var free := 0;
              for k := 0 to size
                invariant 0 <= free <= k && free < size
                invariant free == k <==> Interval(currentBit, k) !! used
              {
                IntervalNext(currentBit, k, used);
                if !TestBit(currentBit + k) {
                  free := free + 1;
                }
                if free == size {
                  assert Fits(used, Size(), currentBit, size);
                  return currentBit;
                }
              }
            } else {
              assert TestBit(currentBit) && currentBit in Interval(currentBit, size);
            }
          }
        } else {
          FullWord(memoryMap[i]);
          forall b: nat | 32 * i <= b < 32 * i + 32
            ensures !Fits(used, Size(), b, size)
          {
            assert TestBit(b) && b in Interval(b, size);
          }
        }
      }
      return -1;
    }

    static lemma IntervalNext(b: nat, k: nat, used: set<nat>)
      ensures Interval(b, k + 1) !! used <==> Interval(b, k) !! used && b + k !in used
    {
      assert Interval(b, k + 1) == Interval(b, k) + {b + k};
    }

    ghost predicate Refuses(n: u32)
      reads this`maxBlocks, this`usedBlocks, memoryMap
    {
      Refused(Used(), Size(), Limit(), GetFreeBlockCount(), n)
    }

    /** What granting a run does, in plain numbers. */
    lemma Granted(before: set<nat>, n: u32, b: nat)
      requires FirstStart(before, Size(), Limit(), n, b)
      ensures (b / 32 + 1) * 0x2_0000 <= memorySize
      ensures forall f: nat :: f in before + Interval(b, n) <==> f in before || b <= f < b + n
      ensures forall f: nat :: b <= f < b + n ==> f !in before
      ensures forall c: nat :: c < b ==> !Fits(before, Size(), c, n)
    {
      LimitIs();
      FitsIff(before, Size(), b, n);
    }

    /** When a request is refused, in plain numbers. */
    lemma RefusesIff(n: u32)
      ensures Refuses(n) <==>
              || (maxBlocks as int - usedBlocks) % 0x1_0000_0000 == 0
              || n == 0
              || forall b: nat :: (b / 32 + 1) * 0x2_0000 <= memorySize ==> !Fits(Used(), Size(), b, n)
    {
      LimitIs();
    }

    /** Marks the run that was found. */
    method Mark(frame: nat, n: nat)
      requires frame + n <= Size()
      modifies memoryMap
      ensures Used() == old(Used()) + Interval(frame, n)
    {
      for i := 0 to n
        invariant Used() == old(Used()) + Interval(frame, i)
      {
        SetBit(frame + i);
      }
    }

    /** Allocates n consecutive frames and returns their address, 0 for failure. */
    method GetFreePhysicalPage(n: u32) returns (address: u32)
      requires Valid() && Readable(Used(), Size(), Limit(), n)
      modifies memoryMap, this`usedBlocks
      ensures old(Refuses(n)) ==> address == 0 && Used() == old(Used()) && usedBlocks == old(usedBlocks)
      ensures !old(Refuses(n)) ==>
                var b := address / 4096;
                && address == b * 4096 && FirstStart(old(Used()), Size(), Limit(), n, b)
                && Used() == old(Used()) + Interval(b, n)
                && usedBlocks == Wrap(old(usedBlocks) + n)
      // In plain numbers: when it refuses, and which frames it takes.
      ensures old(Refuses(n)) <==>
                || old((maxBlocks as int - usedBlocks) % 0x1_0000_0000) == 0
                || n == 0
                || forall b: nat :: (b / 32 + 1) * 0x2_0000 <= memorySize ==> !Fits(old(Used()), Size(), b, n)
      ensures !old(Refuses(n)) ==>
                var b := address / 4096;
                && (b / 32 + 1) * 0x2_0000 <= memorySize
                && (forall f: nat :: f in Used() <==> f in old(Used()) || b <= f < b + n)
                && (forall f: nat :: b <= f < b + n ==> f !in old(Used()))
                && (forall c: nat :: c < b ==> !Fits(old(Used()), Size(), c, n))
    {
      RefusesIff(n);
      ghost var before := Used();
      if GetFreeBlockCount() == 0 {
        return 0;
      }
      var frame := FirstFreePhysicalPagesBits(n);
      if frame == -1 {
        assert Refuses(n);
        return 0;
      }
      Granted(before, n, frame);
      Mark(frame, n);
      address := frame * 4096;
      usedBlocks := Wrap(usedBlocks + n);
    }

    /** Gives n frames back. */
    method FreePage(address: u32, n: u32)
      requires address / 4096 + n <= Size()
      modifies memoryMap, this`usedBlocks
      ensures Used() == old(Used()) - Interval(address / 4096, n)
      ensures usedBlocks == Wrap(old(usedBlocks) - n)
    {
      var frame := address / 4096;
      for i := 0 to n
        invariant Used() == old(Used()) - Interval(frame, i)
        invariant usedBlocks == old(usedBlocks)
      {
        UnsetBit(frame + i);
      }
      usedBlocks := Wrap(usedBlocks - n);
    }
  }
}
