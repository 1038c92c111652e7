/** Machine integers of the i686 target: the ranges of the C types and the wrap-around
    of 32-bit unsigned arithmetic. */
module Machine {
  const WORD: nat := 0x1_0000_0000

  type u8 = x: int | 0 <= x < 0x100
  type u16 = x: int | 0 <= x < 0x1_0000
  type u32 = x: int | 0 <= x < 0x1_0000_0000

  datatype Option<+T> = None | Some(value: T)

  /** A place where the code and its intent differ: the text as it is written, or as it was
      meant. */
  datatype Form = Written | Intended

  /** The value an unsigned 32-bit register holds after computing x. */
  function Wrap(x: int): u32 {
    x % 0x1_0000_0000
  }

  lemma WrapId(x: int)
    requires 0 <= x < WORD
    ensures Wrap(x) == x
  {
  }

  /** Intermediate wrap-arounds do not matter. */
  lemma WrapAdd(x: int, y: int)
    ensures Wrap(Wrap(x) + y) == Wrap(x + y)
  {
    var q := x / WORD;
    assert x == q * 0x1_0000_0000 + Wrap(x);
    assert x + y == q * 0x1_0000_0000 + (Wrap(x) + y);
  }

  lemma WrapSub(x: int, y: int)
    ensures Wrap(Wrap(x) - y) == Wrap(x - y)
  {
    WrapAdd(x, -y);
    assert Wrap(x) - y == Wrap(x) + -y && x - y == x + -y;
  }
}
