/** The 80 by 25 text screen: putChar and scroll on the memory-mapped buffer, and the unbounded
    history of which the screen is the end. */
module Screen {
  import opened Machine

  const WIDTH: nat := 80
  const HEIGHT: nat := 25

  const NEWLINE: u8 := 10
  const SPACE: u8 := 32

  /** ch >= ' ' on a signed char: bytes from 128 on are negative. */
  predicate Printable(ch: u8) {
    32 <= ch < 128
  }

  /** a | b, by binary digits. */
  function Or(a: nat, b: nat): nat
    decreases a + b
  {
    if a == 0 && b == 0 then 0 else (if a % 2 == 1 || b % 2 == 1 then 1 else 0) + 2 * Or(a / 2, b / 2)
  }

  /** The result is a byte again. */
  function VgaColor(foreground: u8, background: u8): u8 {
    Or(foreground, 16 * background) % 256
  }

  lemma {:induction false} OrNothing(b: nat)
    ensures Or(0, b) == b
  {
    if b > 0 {
      OrNothing(b / 2);
    }
  }

  lemma OrEven(a: nat, b: nat)
    ensures Or(a, 2 * b) == a % 2 + 2 * Or(a / 2, b)
  {
    assert 2 * b / 2 == b;
  }

  lemma OrFour(a: nat, b: nat)
    ensures Or(a, 4 * b) == a % 4 + 4 * Or(a / 4, b)
  {
    OrEven(a, 2 * b);
    OrEven(a / 2, b);
    assert a / 2 / 2 == a / 4;
  }

  lemma OrSixteen(a: nat, b: nat)
    requires a < 16
    ensures Or(a, 16 * b) == a + 16 * b
  {
    var c, d := a / 4, 4 * b;
    OrFour(a, d);
    OrFour(c, b);
    OrNothing(b);
    assert c / 4 == 0 && c % 4 == c && 4 * d == 16 * b;
  }

  lemma Byte(c: nat)
    requires c < 256
    ensures c % 256 == c
  {
  }

  /** A text and a background colour below 16 are the low and the high half of the byte. */
  lemma VgaColorIs(foreground: u8, background: u8)
    requires foreground < 16 && background < 16
    ensures VgaColor(foreground, background) == foreground + 16 * background
  {
    OrSixteen(foreground, background);
    Byte(foreground + 16 * background);
  }

  /** A cell of the screen: the character in its low byte, the colour in its high byte. */
  function VgaEntry(ch: u8, color: u8): (cell: u16)
    ensures cell % 256 == ch && cell / 256 == color
  {
    ch + 256 * color
  }

  // ----- The history

  /** Everything ever shown, row after row of 80 cells, and the cursor's place in it. */
  datatype History = History(cells: seq<u16>, pos: nat) {
    /** The screen shows the last 25 rows, and the cursor is in one of them. */
    predicate Valid() {
      |cells| % 80 == 0 && |cells| >= 2000 && |cells| - 2000 <= pos < |cells|
    }

    function Screen(): seq<u16>
      requires Valid()
    {
      cells[|cells| - 2000..]
    }
  }

  function Blank(n: nat, color: u8): seq<u16> {
    seq(n, _ => VgaEntry(SPACE, color))
  }

  function Cleared(color: u8): (h: History)
    ensures h.Valid()
  {
    History(Blank(2000, color), 0)
  }

  /** One character: a newline moves to the next row, a printable one is stored with the colour
      of the moment. A row is added when the cursor leaves the last one. */
  function Put(h: History, ch: u8, color: u8): (r: History)
    requires h.Valid()
    ensures r.Valid() && h.pos <= r.pos && |h.cells| <= |r.cells|
  {
    var moved := if ch == NEWLINE then h.(pos := (h.pos / 80 + 1) * 80)
                 else if Printable(ch) then History(h.cells[h.pos := VgaEntry(ch, color)], h.pos + 1)
                 else h;
    if moved.pos == |h.cells| then moved.(cells := moved.cells + Blank(80, color)) else moved
  }

  /** What one character does to the screen and to the cursor's place p on it: nothing scrolls
      unless the cursor leaves the last row, and then everything moves up by one row. */
  lemma PutShown(h: History, ch: u8, color: u8)
    requires h.Valid()
    ensures var (r, p) := (Put(h, ch, color), h.pos - (|h.cells| - 2000));
      var moved := if ch == 10 then (p / 80 + 1) * 80 else if 32 <= ch < 128 then p + 1 else p;
      var shown := if 32 <= ch < 128 then h.Screen()[p := ch + 256 * color] else h.Screen();
      && r.Screen() == (if moved == 2000 then shown[80..] + seq(80, _ => 32 + 256 * color) else shown)
      && r.pos - (|r.cells| - 2000) == (if moved == 2000 then 1920 else moved)
  {
  }

  /** A character with the colour in force when it was written. */
  datatype Glyph = Glyph(ch: u8, color: u8)

  function PutAll(h: History, s: seq<Glyph>): (r: History)
    requires h.Valid()
    ensures r.Valid() && h.pos <= r.pos && |h.cells| <= |r.cells|
    decreases |s|
  {
    if s == [] then h else PutAll(Put(h, s[0].ch, s[0].color), s[1..])
  }

  /** What has scrolled by, and all that stands before the cursor, never changes again. */
  lemma {:induction false} PastIsFixed(h: History, s: seq<Glyph>)
    requires h.Valid()
    ensures PutAll(h, s).cells[..h.pos] == h.cells[..h.pos]
    decreases |s|
  {
    if s != [] {
      var h' := Put(h, s[0].ch, s[0].color);
      PastIsFixed(h', s[1..]);
      assert h'.cells[..h.pos] == h.cells[..h.pos];
      assert PutAll(h', s[1..]).cells[..h'.pos][..h.pos] == h'.cells[..h'.pos][..h.pos];
    }
  }

  /** Printable text fills consecutive cells from the cursor on, across row and screen ends,
      each cell with the colour of its own moment, and changes no cell besides. */
  lemma {:induction false} TextIsLinear(h: History, s: seq<Glyph>)
    requires h.Valid() && forall i :: 0 <= i < |s| ==> 32 <= s[i].ch < 128
    ensures var r := PutAll(h, s);
      && r.pos == h.pos + |s|
      && (forall i :: 0 <= i < |s| ==>
            r.cells[h.pos + i] % 256 == s[i].ch && r.cells[h.pos + i] / 256 == s[i].color)
      && (forall k :: h.pos + |s| <= k < |h.cells| ==> r.cells[k] == h.cells[k])
    decreases |s|
  {
    if s != [] {
      var h' := Put(h, s[0].ch, s[0].color);
      TextIsLinear(h', s[1..]);
      PastIsFixed(h', s[1..]);
      var r := PutAll(h, s);
      assert r.cells[h.pos] == r.cells[..h'.pos][h.pos] == h'.cells[h.pos];
      forall i | 0 < i < |s|
        ensures r.cells[h.pos + i] % 256 == s[i].ch && r.cells[h.pos + i] / 256 == s[i].color
      {
        assert s[1..][i - 1] == s[i] && r.cells[h'.pos + (i - 1)] / 256 == s[1..][i - 1].color;
      }
    }
  }

  // ----- Characters and colour changes

  datatype Event = Char(ch: u8) | Text(c: u8) | Background(c: u8)

  /** The characters of a run, each with the colour that the changes before it left in force. */
  function Glyphs(text: u8, background: u8, events: seq<Event>): seq<Glyph>
    decreases |events|
  {
    if events == [] then []
    else
      match events[0]
      case Char(ch) => [Glyph(ch, VgaColor(text, background))] + Glyphs(text, background, events[1..])
      case Text(c) => Glyphs(c, background, events[1..])
      case Background(c) => Glyphs(text, c, events[1..])
  }

  // ----- The device

  class VGA {
    const memory: array<u16>
    var x: u8
    var y: u8
    var textColor: u8
    var backgroundColor: u8
    var color: u8

    constructor (memory: array<u16>)
      ensures this.memory == memory && x == 0 && y == 0 && color == VgaColor(7, 0) == 7
      ensures textColor == 7 && backgroundColor == 0
    {
      VgaColorIs(7, 0);
      this.memory := memory;
      x, y := 0, 0;
      textColor, backgroundColor := 7, 0;
      color := VgaColor(7, 0);
    }

    ghost predicate Valid() {
      memory.Length == 2000
    }

    /** The screen is the end of history h, and the cursor is where h has it. */
    ghost predicate Shows(h: History)
      reads this, memory
    {
      && Valid() && h.Valid() && memory[..] == h.Screen()
      && x < 80 && y < 25 && |h.cells| - 2000 + 80 * y + x == h.pos
    }

    method Clear()
      requires Valid()
      modifies memory
      ensures memory[..] == Blank(2000, color)
      ensures forall k :: 0 <= k < 2000 ==> memory[k] % 256 == 32 && memory[k] / 256 == color
      ensures x == 0 && y == 0 ==> Shows(Cleared(color))
    {
      for i := 0 to HEIGHT
        invariant forall k :: 0 <= k < 80 * i ==> memory[k] == VgaEntry(SPACE, color)
      {
        for j := 0 to WIDTH
          invariant forall k :: 0 <= k < 80 * i + j ==> memory[k] == VgaEntry(SPACE, color)
        {
          memory[80 * i + j] := VgaEntry(SPACE, color);
        }
      }
    }

    method SetTextColor(c: u8)
      modifies this`textColor, this`color
      ensures textColor == c && color == VgaColor(c, backgroundColor)
      ensures c < 16 && backgroundColor < 16 ==> color == c + 16 * backgroundColor
    {
      if c < 16 && backgroundColor < 16 {
        VgaColorIs(c, backgroundColor);
      }
      textColor := c;
      color := VgaColor(textColor, backgroundColor);
    }

    method SetBackgroundColor(c: u8)
      modifies this`backgroundColor, this`color
      ensures backgroundColor == c && color == VgaColor(textColor, c)
      ensures textColor < 16 && c < 16 ==> color == textColor + 16 * c
    {
      if textColor < 16 && c < 16 {
        VgaColorIs(textColor, c);
      }
      backgroundColor := c;
      color := VgaColor(textColor, backgroundColor);
    }

    /** Below the last row everything moves up by one row, in place and in ascending order, and
        a blank row comes in. */
    method Scroll()
      requires Valid() && y <= 25
      modifies memory, this`x, this`y
      ensures old(y) < 25 ==> memory[..] == old(memory[..]) && x == old(x) && y == old(y)
      ensures old(y) == 25 ==> memory[..] == old(memory[80..]) + Blank(80, color) && x == 0 && y == 24
    {
      if y >= HEIGHT {
        ghost var was := memory[..];
        for i := 0 to WIDTH * HEIGHT
          invariant x == old(x) && y == old(y)
          invariant forall k :: 0 <= k < i - 80 ==> memory[k] == was[k + 80]
          invariant forall k :: 0 <= k < 2000 && k >= i - 80 ==> memory[k] == was[k]
        {
          if i - WIDTH < 0 {
            continue;
          }
          memory[i - WIDTH] := memory[i];
        }
        for i := 0 to WIDTH
          invariant x == old(x) && y == old(y)
          invariant forall k :: 0 <= k < 1920 ==> memory[k] == was[k + 80]
          invariant forall k :: 1920 <= k < 1920 + i ==> memory[k] == VgaEntry(SPACE, color)
        {
          memory[(HEIGHT - 1) * WIDTH + i] := VgaEntry(SPACE, color);
        }
        y := y - 1;
        x := 0;
      }
    }

    /** The first part of putChar: the cell and the cursor. */
    method Store(ch: u8)
      requires Valid() && x < 80 && y < 25
      modifies memory, this`x, this`y
      ensures var p := old(80 * y + x);
        var moved := if ch == NEWLINE then (p / 80 + 1) * 80 else if Printable(ch) then p + 1 else p;
        && memory[..] == (if ch != NEWLINE && Printable(ch) then old(memory[..])[p := VgaEntry(ch, color)]
                          else old(memory[..]))
        && x < 80 && y <= 25 && 80 * y + x == moved
    {
      if ch == NEWLINE {
        x := 0;
        y := y + 1;
      }
      if Printable(ch) {
        memory[y * WIDTH + x] := VgaEntry(ch, color);
        x := x + 1;
      }
      if x >= WIDTH {
        x := 0;
        y := y + 1;
      }
    }

    /** Both parts: the cells and the cursor, without regard to any history. */
    method Advance(ch: u8)
      requires Valid() && x < 80 && y < 25
      modifies memory, this`x, this`y
      ensures var p := old(80 * y + x);
        var moved := if ch == 10 then (p / 80 + 1) * 80 else if 32 <= ch < 128 then p + 1 else p;
        var shown := if 32 <= ch < 128 then old(memory[..])[p := VgaEntry(ch, color)] else old(memory[..]);
        && memory[..] == (if moved == 2000 then shown[80..] + Blank(80, color) else shown)
        && x < 80 && y < 25 && 80 * y + x == if moved == 2000 then 1920 else moved
    {
      Store(ch);
      ghost var shown := memory[..];
      Scroll();
      assert old(memory[..])[80..] == old(memory[80..]);
    }

    /** So the screen is that of the history after the character. */
    lemma ShowsPut(h: History, was: seq<u16>, p: nat, ch: u8)
      requires Valid() && h.Valid() && was == h.Screen() && |h.cells| - 2000 + p == h.pos
      requires var moved := if ch == 10 then (p / 80 + 1) * 80 else if 32 <= ch < 128 then p + 1 else p;
        var shown := if 32 <= ch < 128 then was[p := VgaEntry(ch, color)] else was;
        && memory[..] == (if moved == 2000 then shown[80..] + Blank(80, color) else shown)
        && x < 80 && y < 25 && 80 * y + x == if moved == 2000 then 1920 else moved
      ensures Shows(Put(h, ch, color))
    {
      PutShown(h, ch, color);
    }

    /** The cells after one character, in numbers. */
    static lemma InNumbers(was: seq<u16>, now: seq<u16>, p: nat, ch: u8, color: u8)
      requires |was| == 2000 && p < 2000
      requires var moved := if ch == 10 then (p / 80 + 1) * 80 else if 32 <= ch < 128 then p + 1 else p;
        var shown := if 32 <= ch < 128 then was[p := VgaEntry(ch, color)] else was;
        now == if moved == 2000 then shown[80..] + Blank(80, color) else shown
      ensures var up := if (ch == 10 && p >= 1920) || (32 <= ch < 128 && p == 1999) then 80 else 0;
        && |now| == 2000
        && (32 <= ch < 128 ==> now[p - up] % 256 == ch && now[p - up] / 256 == color)
        && (forall k :: up <= k < 2000 && (k != p || !(32 <= ch < 128)) ==> now[k - up] == was[k])
        && (forall k :: 2000 - up <= k < 2000 ==> now[k] % 256 == 32 && now[k] / 256 == color)
    {
    }

    /** Writes one character; the screen goes on showing the end of the history. In numbers: a
        printable character goes to the cursor's cell with the colour in force, one row further up if
        the screen scrolls, and then the last row is blank. */
    method PutChar(ch: u8, ghost h: History)
      requires Shows(h)
      modifies memory, this`x, this`y
      ensures Shows(Put(h, ch, color))
      ensures var (was, now, p) := (old(memory[..]), memory[..], old(80 * y + x));
        var up := if (ch == 10 && p >= 1920) || (32 <= ch < 128 && p == 1999) then 80 else 0;
        && 80 * y + x == (if ch == 10 then (p / 80 + 1) * 80 else if 32 <= ch < 128 then p + 1 else p) - up
        && (32 <= ch < 128 ==> now[p - up] % 256 == ch && now[p - up] / 256 == color)
        && (forall k :: up <= k < 2000 && (k != p || !(32 <= ch < 128)) ==> now[k - up] == was[k])
        && (forall k :: 2000 - up <= k < 2000 ==> now[k] % 256 == 32 && now[k] / 256 == color)
    {
      ghost var was, p := memory[..], 80 * y + x;
      Advance(ch);
      ShowsPut(h, was, p, ch);
      InNumbers(was, memory[..], p, ch, color);
    }

    /** Any sequence of characters and colour changes leaves the end of its history on the
        screen. */
    method Play(events: seq<Event>, ghost h: History)
      requires Shows(h) && color == VgaColor(textColor, backgroundColor)
      modifies memory, this`x, this`y, this`textColor, this`backgroundColor, this`color
      ensures Shows(PutAll(h, Glyphs(old(textColor), old(backgroundColor), events)))
    {
      ghost var now := h;
      ghost var all := Glyphs(textColor, backgroundColor, events);
      for i := 0 to |events|
        invariant Shows(now) && color == VgaColor(textColor, backgroundColor)
        invariant PutAll(h, all) == PutAll(now, Glyphs(textColor, backgroundColor, events[i..]))
      {
        ghost var rest := Glyphs(textColor, backgroundColor, events[i..]);
        assert events[i..][0] == events[i] && events[i..][1..] == events[i + 1..];
        match events[i] {
          case Char(ch) =>
            assert rest[0] == Glyph(ch, color) && rest[1..] == Glyphs(textColor, backgroundColor, events[i + 1..]);
            PutChar(ch, now);
            now := Put(now, ch, color);
          case Text(c) => SetTextColor(c);
          case Background(c) => SetBackgroundColor(c);
        }
      }
      assert events[|events|..] == [];
    }

    /** print: one putChar for each byte. */
    method Print(data: seq<u8>, ghost h: History)
      requires Shows(h)
      modifies memory, this`x, this`y
      ensures Shows(PutAll(h, seq(|data|, i requires 0 <= i < |data| => Glyph(data[i], old(color)))))
    {
      ghost var now := h;
      ghost var all := seq(|data|, i requires 0 <= i < |data| => Glyph(data[i], old(color)));
      for i := 0 to |data|
        invariant Shows(now) && PutAll(h, all) == PutAll(now, all[i..]) && color == old(color)
      {
        assert all[i..][0] == all[i] && all[i..][1..] == all[i + 1..];
        PutChar(data[i], now);
        now := Put(now, data[i], color);
      }
      assert all[|data|..] == [];
    }
  }
}
