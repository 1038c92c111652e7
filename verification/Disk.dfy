/** The ATA driver: reading a byte range sector by sector through the drive's registers. */
module Disk {
  import opened Machine

  type Sector = s: seq<u16> | |s| == 256 witness seq(256, _ => 0)

  /** The contents of the two drives on a bus, by master or slave and by sector number. */
  type Image = (bool, nat) -> Sector

  /** Byte j of a sector: its words are little-endian. */
  function SectorByte(words: Sector, j: nat): u8
    requires j < 512
  {
    if j % 2 == 0 then words[j / 2] % 256 else words[j / 2] / 256
  }

  /** Byte `pos` of a drive. */
  function DiskByte(disk: Image, master: bool, pos: nat): u8 {
    SectorByte(disk(master, pos / 512), pos % 512)
  }

  /** Each word of a sector is the low byte and then the high byte of two bytes of the drive. */
  lemma WordBytes(disk: Image, master: bool, lba: nat, i: nat)
    requires i < 256
    ensures DiskByte(disk, master, 512 * lba + 2 * i) as int
          + 256 * DiskByte(disk, master, 512 * lba + 2 * i + 1) as int
         == disk(master, lba)[i]
  {
    DiskByteAt(disk, master, lba, 2 * i);
    DiskByteAt(disk, master, lba, 2 * i + 1);
  }

  lemma DiskByteAt(disk: Image, master: bool, lba: nat, j: nat)
    requires j < 512
    ensures DiskByte(disk, master, 512 * lba + j) == SectorByte(disk(master, lba), j)
  {
    assert (512 * lba + j) / 512 == lba && (512 * lba + j) % 512 == j;
  }

  /** n bytes copied to buf[at..] from a sector at the place that is due next. */
  lemma DueBytes(disk: Image, master: bool, offset: nat, lba: nat, buf: seq<u8>, at: nat, from: nat, n: nat)
    requires from + n <= 512 && at + n <= |buf| && offset + at == 512 * lba + from
    requires forall k :: at <= k < at + n ==> buf[k] == SectorByte(disk(master, lba), from + (k - at))
    ensures forall k :: at <= k < at + n ==> buf[k] == DiskByte(disk, master, offset + k)
  {
    forall k | at <= k < at + n
      ensures buf[k] == DiskByte(disk, master, offset + k)
    {
      DiskByteAt(disk, master, lba, from + (k - at));
      assert 512 * lba + (from + (k - at)) == offset + k;
    }
  }

  // ----- The device

  /** The drives behind the ports: the registers, and the words that the last read command
      fetched and the data port has not handed out yet. */
  class Bus {
    const disk: Image
    var device: u8
    var sectorCount: u8
    var low: u8
    var mid: u8
    var high: u8
    var words: seq<u16>

    constructor (disk: Image)
      ensures this.disk == disk
    {
      this.disk := disk;
      device, sectorCount, low, mid, high := 0, 0, 0, 0, 0;
      words := [];
    }

    /** The 28-bit sector number in the registers. */
    function Selected(): nat
      reads this
    {
      device % 16 * 0x100_0000 + high * 0x1_0000 + mid * 0x100 + low
    }

    /** Command 0x20 reads the selected sector of the drive that bit 4 of the device register
        names. */
    method Command(command: u8)
      modifies this`words
      ensures command == 0x20 ==> words == disk(device / 16 % 2 == 0, Selected())
      ensures command != 0x20 ==> words == old(words)
    {
      if command == 0x20 {
        words := disk(device / 16 % 2 == 0, Selected());
      }
    }

    method ReadData() returns (word: u16)
      modifies this`words
      ensures old(words) != [] ==> word == old(words)[0] && words == old(words)[1..]
      ensures old(words) == [] ==> words == []
    {
      word := 0;
      if words != [] {
        word, words := words[0], words[1..];
      }
    }
  }

  /** The four pieces written to the registers come together again as the low 28 bits. */
  lemma Recombined(lba: u32)
    ensures lba / 0x100_0000 % 16 * 0x100_0000 + lba / 0x1_0000 % 256 * 0x1_0000 + lba / 0x100 % 256 * 0x100 + lba % 256
         == lba % 0x1000_0000
  {
    assert lba / 0x100 / 0x100 == lba / 0x1_0000 && lba / 0x1_0000 / 0x100 == lba / 0x100_0000;
  }

  /** The device register names the drive in bit 4, beside the top piece. */
  lemma DeviceBits(master: bool, piece: nat)
    requires piece < 16
    ensures var device := (if master then 0xE0 else 0xF0) + piece;
      device % 16 == piece && (device / 16 % 2 == 0 <==> master)
  {
  }

  // ----- Which bytes of which sector each turn copies

  /** The last byte asked for, as the 32-bit arithmetic of the driver finds it. */
  function Last(offset: u32, size: u32): u32 {
    Wrap(offset + size - 1)
  }

  /** Where in its sector the copy of one turn starts, and how much it copies. */
  function From(offset: u32, counter: nat): nat {
    if counter == offset / 512 then offset % 512 else 0
  }

  function Count(offset: u32, size: u32, counter: nat): u32 {
    if counter == Last(offset, size) / 512
    then Wrap(Last(offset, size) % 512 - From(offset, counter) + 1)
    else 512 - From(offset, counter)
  }

  /** The bytes copied by the turns from `counter` on. */
  function Copied(offset: u32, size: u32, counter: nat): nat
    decreases Last(offset, size) / 512 + 1 - counter
  {
    if counter > Last(offset, size) / 512 then 0
    else Count(offset, size, counter) + Copied(offset, size, counter + 1)
  }

  /** No turn copies from outside its sector buffer. */
  ghost predicate Inside(offset: u32, size: u32) {
    forall counter {:trigger From(offset, counter)} :: offset / 512 <= counter <= Last(offset, size) / 512
      ==> From(offset, counter) + Count(offset, size, counter) <= 512
  }

  /** The driver works: it stays inside its sector buffers, and copies as much as was asked for. */
  ghost predicate Works(offset: u32, size: u32) {
    Inside(offset, size) && Copied(offset, size, offset / 512) == size
  }

  predicate InRange(offset: u32, size: u32) {
    1 <= offset + size <= 0x1_0000_0000
  }

  /** The range as the turns see it: its end wraps below the disk for the empty range at 0, which
      makes it the whole 4 GB. */
  function End(offset: u32, size: u32): nat {
    if offset + size == 0 then 0x1_0000_0000 else offset + size
  }

  predicate Steady(offset: u32, size: u32) {
    offset + size <= 0x1_0000_0000
  }

  lemma LastIs(offset: u32, size: u32)
    requires Steady(offset, size)
    ensures Last(offset, size) == End(offset, size) - 1
  {
    if InRange(offset, size) {
      WrapId(offset + size - 1);
    }
  }

  /** How much has been copied before the turn for sector `counter`. */
  function Done(offset: u32, size: u32, counter: nat): int {
    if counter == offset / 512 then 0
    else if counter == Last(offset, size) / 512 + 1 then End(offset, size) - offset
    else 512 * counter - offset
  }

  /** A turn stays inside its sector, starts at the disk byte that is due next, and copies up to
      where the next turn starts. */
  lemma Turn(offset: u32, size: u32, counter: nat)
    requires Steady(offset, size) && offset / 512 <= counter <= Last(offset, size) / 512
    ensures From(offset, counter) + Count(offset, size, counter) <= 512
    ensures 0 <= Done(offset, size, counter)
    ensures 512 * counter + From(offset, counter) == offset + Done(offset, size, counter)
    ensures Done(offset, size, counter) + Count(offset, size, counter) == Done(offset, size, counter + 1)
         <= End(offset, size) - offset
  {
    LastIs(offset, size);
    var last: int := End(offset, size) - 1;
    if counter == last / 512 {
      var n := last % 512 - From(offset, counter) + 1;
      assert 512 * counter + From(offset, counter) + n == last + 1;
      WrapId(n);
    }
  }

  lemma {:induction false} CopiedRest(offset: u32, size: u32, counter: nat)
    requires Steady(offset, size) && offset / 512 <= counter <= Last(offset, size) / 512 + 1
    ensures Copied(offset, size, counter) == End(offset, size) - offset - Done(offset, size, counter)
    decreases Last(offset, size) / 512 + 1 - counter
  {
    LastIs(offset, size);
    if counter <= Last(offset, size) / 512 {
      Turn(offset, size, counter);
      CopiedRest(offset, size, counter + 1);
    }
  }

  /** A range that reaches beyond 4 GB wraps to an earlier last byte: nothing is copied, or else
      more than the one sector holds. */
  lemma Overflow(offset: u32, size: u32)
    requires offset + size > 0x1_0000_0000
    ensures Last(offset, size) == offset + size - 1 - 0x1_0000_0000 < offset
    ensures Last(offset, size) / 512 < offset / 512 ==> Copied(offset, size, offset / 512) == 0
    ensures Last(offset, size) / 512 == offset / 512 ==>
              From(offset, offset / 512) + Count(offset, size, offset / 512) > 512
  {
    var last := Last(offset, size);
    assert last == offset + size - 1 - 0x1_0000_0000;
    if last / 512 == offset / 512 {
      assert last % 512 - offset % 512 + 1 == size - 0x1_0000_0000;
    }
  }

  /** How much the turns copy together: for a range inside 4 GB its size, save that the empty range
      at 0 copies all 4 GB; for one beyond, nothing, if they stay inside their sectors. */
  lemma CopiedIs(offset: u32, size: u32)
    ensures Inside(offset, size) <==> Steady(offset, size) || Last(offset, size) / 512 < offset / 512
    ensures Inside(offset, size) ==>
              Copied(offset, size, offset / 512) == if Steady(offset, size) then End(offset, size) - offset else 0
  {
    var start := offset / 512;
    if Steady(offset, size) {
      LastIs(offset, size);
      forall counter {:trigger From(offset, counter)} | start <= counter <= Last(offset, size) / 512
        ensures From(offset, counter) + Count(offset, size, counter) <= 512
      {
        Turn(offset, size, counter);
      }
      CopiedRest(offset, size, start);
    } else {
      Overflow(offset, size);
    }
  }

  lemma WholeRange(offset: u32, size: u32, done: nat)
    requires done == if Steady(offset, size) then End(offset, size) - offset else 0
    ensures 1 <= offset + size <= 0x1_0000_0000 ==> Wrap(done) == done == size
  {
  }

  /** The driver works exactly when the range is not empty at the start of the disk and does not
      reach beyond 4 GB. */
  lemma WorksIff(offset: u32, size: u32)
    ensures Works(offset, size) <==> 1 <= offset + size <= 0x1_0000_0000
  {
    CopiedIs(offset, size);
    if !Steady(offset, size) {
      Overflow(offset, size);
    }
  }

  // ----- The driver

  method Memcpy(dest: array<u8>, to: nat, src: array<u8>, from: nat, size: nat)
    requires dest != src && to + size <= dest.Length && from + size <= src.Length
    modifies dest
    ensures forall k :: to <= k < to + size ==> dest[k] == src[from + (k - to)]
    ensures forall k :: 0 <= k < to || to + size <= k < dest.Length ==> dest[k] == old(dest[k])
  {
    for i := 0 to size
      invariant forall k :: to <= k < to + i ==> dest[k] == src[from + (k - to)]
      invariant forall k :: 0 <= k < to || to + i <= k < dest.Length ==> dest[k] == old(dest[k])
    {
      dest[to + i] := src[from + i];
    }
  }

  /** Which part of the sector buffer a turn copies. */
  method Window(offset: u32, size: u32, counter: nat) returns (sectorOffset: u32, readSize: u32)
    ensures sectorOffset == From(offset, counter) && readSize == Count(offset, size, counter)
  {
    sectorOffset := 0;
    readSize := 512;
    if counter == offset / 512 {
      sectorOffset := offset % 512;
      readSize := 512 - sectorOffset;
    }
    if counter == Last(offset, size) / 512 {
      readSize := Wrap(Last(offset, size) % 512 - sectorOffset + 1);
    }
  }

  /** The memcpy of one turn: ret holds sector lba, and the part of it that is copied starts at the
      disk byte that is due. */
  method CopyPiece(ghost disk: Image, ghost master: bool, ghost offset: nat, ghost lba: nat, ret: array<u8>, from: nat,
                   size: nat, buf: array<u8>, at: nat)
    requires ret != buf && ret.Length == 512 && from + size <= 512 && at + size <= buf.Length
    requires forall j :: 0 <= j < 512 ==> ret[j] == SectorByte(disk(master, lba), j)
    requires offset + at == 512 * lba + from
    modifies buf
    ensures forall k :: at <= k < at + size ==> buf[k] == DiskByte(disk, master, offset + k)
    ensures forall k :: 0 <= k < at || at + size <= k < buf.Length ==> buf[k] == old(buf[k])
  {
    Memcpy(buf, at, ret, from, size);
    DueBytes(disk, master, offset, lba, buf[..], at, from, size);
  }

  class ATA {
    const bus: Bus
    const master: bool

    constructor (bus: Bus, master: bool)
      ensures this.bus == bus && this.master == master
    {
      this.bus, this.master := bus, master;
    }

    /** Writes the address registers and the read command: the sector is then waiting. */
    method Select(lba: u32)
      modifies bus
      ensures bus.words == bus.disk(master, lba % 0x1000_0000)
    {
      bus.device := (if master then 0xE0 else 0xF0) + lba / 0x100_0000 % 16;
      bus.sectorCount := 1;
      bus.low := lba % 256;
      bus.mid := lba / 0x100 % 256;
      bus.high := lba / 0x1_0000 % 256;
      DeviceBits(master, lba / 0x100_0000 % 16);
      Recombined(lba);
      bus.Command(0x20);
    }

    /** Reads a sector into a new buffer. The sector number counts modulo 2^28. */
    method ReadSector(lba: u32) returns (buf: array<u8>)
      modifies bus
      ensures fresh(buf) && buf.Length == 512
      ensures forall j :: 0 <= j < 512 ==> buf[j] == SectorByte(bus.disk(master, lba % 0x1000_0000), j)
      ensures forall i :: 0 <= i < 256 ==>
                buf[2 * i] as int + 256 * buf[2 * i + 1] as int == bus.disk(master, lba % 0x1000_0000)[i]
    {
      buf := new u8[512];
      Select(lba);
      ghost var words: Sector := bus.words;
      var i := 0;
      while i < 512
        invariant 0 <= i <= 512 && i % 2 == 0
        invariant bus.words == words[i / 2..]
        invariant forall j :: 0 <= j < i ==> buf[j] == SectorByte(words, j)
      {
        var readData := bus.ReadData();
        buf[i] := readData % 256;
        buf[i + 1] := readData / 256;
        i := i + 2;
      }
      forall i | 0 <= i < 256
        ensures buf[2 * i] as int + 256 * buf[2 * i + 1] as int == words[i]
      {
        assert buf[2 * i] == SectorByte(words, 2 * i) && buf[2 * i + 1] == SectorByte(words, 2 * i + 1);
      }
    }

    /** One turn of the loop: the bytes of one sector that fall in the range, to buf[at..]. */
    method ReadPiece(offset: u32, size: u32, counter: nat, buf: array<u8>, at: nat) returns (readSize: u32)
      requires Steady(offset, size) && offset / 512 <= counter <= Last(offset, size) / 512
      requires at == Done(offset, size, counter) && End(offset, size) - offset <= buf.Length
      modifies bus, buf
      ensures at + readSize == Done(offset, size, counter + 1) <= End(offset, size) - offset
      ensures forall k :: at <= k < at + readSize ==> buf[k] == DiskByte(bus.disk, master, offset + k)
      ensures forall k :: 0 <= k < at || at + readSize <= k < buf.Length ==> buf[k] == old(buf[k])
    {
      Turn(offset, size, counter);
      assert counter % 0x1000_0000 == counter;
      var ret := ReadSector(counter);
      var sectorOffset;
      sectorOffset, readSize := Window(offset, size, counter);
      CopyPiece(bus.disk, master, offset, counter, ret, sectorOffset, readSize, buf, at);
    }

    /** The loop of read. */
    method ReadPieces(offset: u32, size: u32, buf: array<u8>) returns (total: u32, ghost done: nat)
      requires Steady(offset, size) || Last(offset, size) / 512 < offset / 512
      requires Steady(offset, size) ==> End(offset, size) - offset <= buf.Length
      modifies bus, buf
      ensures done == (if Steady(offset, size) then End(offset, size) - offset else 0) && total == Wrap(done)
      ensures forall k :: 0 <= k < done ==> buf[k] == DiskByte(bus.disk, master, offset + k)
      ensures forall k :: done <= k < buf.Length ==> buf[k] == old(buf[k])
    {
      var end := Last(offset, size) / 512;
      var counter := offset / 512;
      var currentBuffer := 0;
      total := 0;
      if Steady(offset, size) {
        LastIs(offset, size);
      }
      while counter <= end
        invariant offset / 512 <= counter && total == Wrap(currentBuffer)
        invariant if Steady(offset, size) then counter <= end + 1 && currentBuffer == Done(offset, size, counter)
                  else counter > end && currentBuffer == 0
        invariant forall k :: 0 <= k < currentBuffer ==> buf[k] == DiskByte(bus.disk, master, offset + k)
        invariant forall k :: currentBuffer <= k < buf.Length ==> buf[k] == old(buf[k])
      {
        var readSize := ReadPiece(offset, size, counter, buf, currentBuffer);
        WrapAdd(currentBuffer, readSize);
        currentBuffer := currentBuffer + readSize;
        total := Wrap(total + readSize);
        counter := counter + 1;
      }
      done := currentBuffer;
    }

    /** Reads the bytes [offset, offset + size) into buf, and nothing more. That is, for a range
        inside 4 GB; otherwise it reads what the turns copy, which CopiedIs says. The caller must
        have room for that, and the turns must stay inside their sector buffers: else the driver
        leaves its buffers. */
    method Read(offset: u32, size: u32, buf: array<u8>) returns (total: u32)
      requires Inside(offset, size) && Copied(offset, size, offset / 512) <= buf.Length
      modifies bus, buf
      ensures 1 <= offset + size <= 0x1_0000_0000 ==> total == Copied(offset, size, offset / 512) == size
      ensures total == Wrap(Copied(offset, size, offset / 512))
      ensures forall k :: 0 <= k < Copied(offset, size, offset / 512) ==>
                buf[k] == DiskByte(bus.disk, master, offset + k)
      ensures forall k :: Copied(offset, size, offset / 512) <= k < buf.Length ==> buf[k] == old(buf[k])
    {
      CopiedIs(offset, size);
      ghost var done;
      total, done := ReadPieces(offset, size, buf);
      WholeRange(offset, size, done);
    }
  }
}
