/** Printing unsigned numbers: countDigit, itos and the in-place reverse. */
module Numerals {
  import opened Machine

  // ----- Division by repeated subtraction, to keep the proofs linear

  function Quot(n: nat, base: nat): (q: nat)
    requires 2 <= base
    ensures q <= n && (n > 0 ==> q < n) && (q == 0 <==> n < base)
  {
    if n < base then 0 else 1 + Quot(n - base, base)
  }

  function Rem(n: nat, base: nat): (r: nat)
    requires 2 <= base
    ensures r < base
  {
    if n < base then n else Rem(n - base, base)
  }

  lemma {:induction false} DivisionIs(n: nat, base: nat)
    requires 2 <= base
    ensures Quot(n, base) * base + Rem(n, base) == n
    ensures n / base == Quot(n, base) && n % base == Rem(n, base)
  {
    if n >= base {
      DivisionIs(n - base, base);
      assert (1 + Quot(n - base, base)) * base == base + Quot(n - base, base) * base;
    }
    DivisionUnique(n, base, Quot(n, base), Rem(n, base));
  }

  /** A multiple of the base strictly between its negative and itself is 0. */
  lemma Multiple(d: int, base: nat)
    requires 0 < base && 0 - (base as int) < d * base < base
    ensures d == 0
  {
  }

  lemma DivisionUnique(n: nat, base: nat, q: nat, r: nat)
    requires 0 < base && q * base + r == n && r < base
    ensures n / base == q && n % base == r
  {
    var d := n / base - q;
    assert n == n / base * base + n % base;
    assert d * base == r - n % base;
    Multiple(d, base);
  }

  // ----- Numerals and their meaning

  function DigitChar(r: nat): char
    requires r < 36
  {
    if r >= 10 then (65 + (r - 10)) as char else (48 + r) as char
  }

  function DigitValue(c: char): int {
    if c >= 'A' then c as int - 65 + 10 else c as int - 48
  }

  /** The numeral of n, most significant digit first. */
  function Numeral(n: nat, base: nat): (s: string)
    requires 2 <= base <= 32
    ensures |s| > 0
  {
    if n < base then [DigitChar(n)] else Numeral(Quot(n, base), base) + [DigitChar(Rem(n, base))]
  }

  function Parse(s: string, base: nat): int {
    if s == [] then 0 else Parse(s[..|s| - 1], base) * base + DigitValue(s[|s| - 1])
  }

  /** Parsing a numeral gives the number back. */
  lemma {:induction false} ParseNumeral(n: nat, base: nat)
    requires 2 <= base <= 32
    ensures Parse(Numeral(n, base), base) == n
  {
    var s := Numeral(n, base);
    if n < base {
      assert s[..0] == [] && Parse([], base) == 0;
    } else {
      ParseNumeral(Quot(n, base), base);
      assert s[..|s| - 1] == Numeral(Quot(n, base), base);
      DivisionIs(n, base);
    }
  }

  /** A numeral has no leading zero, but for that of 0 itself, and its digits are digits of the
      base, from '0' to '9' and then from 'A' to 'V'. */
  lemma {:induction false} NumeralForm(n: nat, base: nat)
    requires 2 <= base <= 32
    ensures Numeral(n, base)[0] == '0' <==> n == 0
    ensures forall i :: 0 <= i < |Numeral(n, base)| ==>
              && 0 <= DigitValue(Numeral(n, base)[i]) < base
              && ('0' <= Numeral(n, base)[i] <= '9' || 'A' <= Numeral(n, base)[i] <= 'V')
    ensures n < base ==> Numeral(n, base) == [(n + if n < 10 then 48 else 55) as char]
  {
    if n >= base {
      NumeralForm(Quot(n, base), base);
    }
  }

  // ----- Digits in the order the loop finds them

  function Reversed(s: string): string {
    if s == [] then [] else Reversed(s[1..]) + [s[0]]
  }

  lemma {:induction false} ReversedAt(s: string, k: nat)
    requires k < |s|
    ensures |Reversed(s)| == |s| && Reversed(s)[k] == s[|s| - 1 - k]
  {
    if |s| > 1 {
      ReversedAt(s[1..], if k < |s| - 1 then k else 0);
    }
  }

  lemma ReversedIs(s: string, t: string)
    requires |t| == |s| && forall k :: 0 <= k < |s| ==> t[k] == s[|s| - 1 - k]
    ensures t == Reversed(s)
  {
    if s != [] {
      ReversedAt(s, 0);
      forall k | 0 <= k < |s|
        ensures t[k] == Reversed(s)[k]
      {
        ReversedAt(s, k);
      }
    }
  }

  lemma ReversedSlice(was: string, now: string, i: nat, j: int)
    requires |now| == |was| && i <= j + 1 <= |was|
    requires forall k :: i <= k <= j ==> now[k] == was[i + j - k]
    ensures now[i..j + 1] == Reversed(was[i..j + 1])
  {
    ReversedIs(was[i..j + 1], now[i..j + 1]);
  }

  /** The digits of n, least significant first; none for 0. */
  function LowFirst(n: nat, base: nat): string
    requires 2 <= base <= 32
  {
    if n == 0 then [] else [DigitChar(Rem(n, base))] + LowFirst(Quot(n, base), base)
  }

  lemma {:induction false} LowFirstReversed(n: nat, base: nat)
    requires 2 <= base <= 32 && n > 0
    ensures Reversed(LowFirst(n, base)) == Numeral(n, base)
  {
    var s := LowFirst(n, base);
    assert s[1..] == LowFirst(Quot(n, base), base);
    if n < base {
    } else {
      LowFirstReversed(Quot(n, base), base);
    }
  }

  // ----- The routines

  /** How many digits n has in any base from 2 on. */
  function Digits(n: nat, base: nat): (k: nat)
    requires 2 <= base
    ensures k > 0
  {
    if n < base then 1 else 1 + Digits(Quot(n, base), base)
  }

  /** In the bases that itos knows these are the characters of the numeral. */
  lemma {:induction false} DigitsIs(n: nat, base: nat)
    requires 2 <= base <= 32
    ensures Digits(n, base) == |Numeral(n, base)|
  {
    if n >= base {
      DigitsIs(Quot(n, base), base);
    }
  }

  function Power(base: nat, k: nat): nat {
    if k == 0 then 1 else Power(base, k - 1) * base
  }

  /** A number of k digits lies between the powers of the base. */
  lemma {:induction false} DigitsBound(n: nat, base: nat)
    requires 2 <= base
    ensures n < Power(base, Digits(n, base))
    ensures n > 0 ==> Power(base, Digits(n, base) - 1) <= n
  {
    if n < base {
      assert Power(base, 0) == 1 && Power(base, 1) == Power(base, 0) * base;
    } else {
      var q, k := Quot(n, base), Digits(Quot(n, base), base);
      DivisionIs(n, base);
      DigitsBound(q, base);
      Scaled(Power(base, k - 1), q, base);
      Scaled(q + 1, Power(base, k), base);
      OneMore(q, base);
    }
  }

  lemma Scaled(a: nat, b: nat, c: nat)
    requires a <= b
    ensures a * c <= b * c
  {
  }

  lemma OneMore(q: nat, base: nat)
    ensures (q + 1) * base == q * base + base
  {
  }

  method CountDigit(n: u32, base: u32) returns (count: nat)
    requires 2 <= base
    ensures count == Digits(n, base)
    ensures base <= 32 ==> count == |Numeral(n, base)|
  {
    if base <= 32 {
      DigitsIs(n, base);
    }
    if n == 0 {
      return 1;
    }
    var m := n;
    count := 0;
    while m != 0
      invariant 0 <= m < WORD
      invariant if m == 0 then count == Digits(n, base) else count + Digits(m, base) == Digits(n, base)
      decreases m
    {
      DivisionIs(m, base);
      m := m / base;
      count := count + 1;
    }
  }

  method Swap(buffer: array<char>, x: nat, y: nat)
    requires x < buffer.Length && y < buffer.Length
    modifies buffer
    ensures buffer[..] == old(buffer[..][x := buffer[y]][y := buffer[x]])
  {
    var t := buffer[x];
    buffer[x] := buffer[y];
    buffer[y] := t;
  }

  /** The buffer once the positions i to j outside a to b have been swapped. */
  function Turned(was: string, i: nat, j: int, a: int, b: int): (r: string)
    requires i <= j + 1 <= |was|
    ensures |r| == |was|
  {
    seq(|was|, k requires 0 <= k < |was| => if i <= k <= j && !(a <= k <= b) then was[i + j - k] else was[k])
  }

  lemma TurnedNext(was: string, i: nat, j: int, a: nat, b: nat)
    requires i <= j + 1 <= |was| && i <= a < b && a + b == i + j
    ensures var t := Turned(was, i, j, a, b); Turned(was, i, j, a + 1, b - 1) == t[a := t[b]][b := t[a]]
  {
  }

  lemma TurnedAll(was: string, i: nat, j: int, a: int, b: int)
    requires i <= j + 1 <= |was| && i <= a && b <= a && a + b == i + j
    ensures var t := Turned(was, i, j, a, b);
      t[i..j + 1] == Reversed(was[i..j + 1]) && t[..i] == was[..i] && t[j + 1..] == was[j + 1..]
  {
    ReversedSlice(was, Turned(was, i, j, a, b), i, j);
  }

  /** Reverses buffer[i..j+1] in place. */
  method Reverse(buffer: array<char>, i: int, j: int)
    requires 0 <= i <= j + 1 <= buffer.Length
    modifies buffer
    ensures buffer[i..j + 1] == Reversed(old(buffer[i..j + 1]))
    ensures buffer[..i] == old(buffer[..i]) && buffer[j + 1..] == old(buffer[j + 1..])
  {
    ghost var was := buffer[..];
    var a, b := i, j;
    assert Turned(was, i, j, a, b) == was;
    while a < b
      invariant i <= a && b <= j && a + b == i + j
      invariant buffer[..] == Turned(was, i, j, a, b)
    {
      TurnedNext(was, i, j, a, b);
      Swap(buffer, a, b);
      a, b := a + 1, b - 1;
    }
    TurnedAll(was, i, j, a, b);
    ghost var now := buffer[..];
    assert buffer[i..j + 1] == now[i..j + 1] && buffer[..i] == now[..i] && buffer[j + 1..] == now[j + 1..];
    assert old(buffer[i..j + 1]) == was[i..j + 1];
  }

  /** What the digit loop leaves in the buffer. */
  function Written(value: nat, base: nat): string
    requires 2 <= base <= 32
  {
    if value == 0 then "0" else LowFirst(value, base)
  }

  lemma WrittenReversed(value: nat, base: nat)
    requires 2 <= base <= 32
    ensures Reversed(Written(value, base)) == Numeral(value, base)
    ensures |Written(value, base)| == |Numeral(value, base)|
  {
    if value == 0 {
      assert "0"[1..] == [] && Reversed([]) == [];
    } else {
      LowFirstReversed(value, base);
    }
    ReversedAt(Written(value, base), 0);
  }

  /** The digit loop of itos. */
  method WriteDigits(value: u32, buffer: array<char>, base: nat) returns (i: nat)
    requires 2 <= base <= 32 && |Written(value, base)| <= buffer.Length
    modifies buffer
    ensures i == |Written(value, base)|
    ensures buffer[..i] == Written(value, base) && buffer[i..] == old(buffer[..])[i..]
  {
    var n := value;
    i := 0;
    ghost var digits := LowFirst(value, base);
    while n != 0
      invariant 0 <= n < WORD && 0 <= i <= |digits|
      invariant buffer[..i] == digits[..i] && digits[i..] == LowFirst(n, base)
      invariant buffer[i..] == old(buffer[..])[i..]
      decreases n
    {
      DivisionIs(n, base);
      assert digits[i..][0] == DigitChar(n % base) && digits[i..][1..] == LowFirst(n / base, base);
      buffer[i] := DigitChar(n % base);
      n := n / base;
      i := i + 1;
    }
    if i == 0 {
      buffer[i] := '0';
      i := i + 1;
    }
  }

  /** Writes the numeral of value and a terminating NUL, and nothing else. For a base outside 2
      to 32 it writes nothing at all. The buffer must have room for the NUL as well. */
  method Itos(value: u32, buffer: array<char>, base: int)
    requires 2 <= base <= 32 ==> |Numeral(value, base)| < buffer.Length
    modifies buffer
    ensures !(2 <= base <= 32) ==> buffer[..] == old(buffer[..])
    ensures 2 <= base <= 32 ==>
              var k := |Numeral(value, base)|;
              buffer[..k] == Numeral(value, base) && buffer[k] == '\0' && buffer[k + 1..] == old(buffer[..])[k + 1..]
  {
    if base < 2 || base > 32 {
      return;
    }
    WrittenReversed(value, base);
    var i := WriteDigits(value, buffer, base);
    buffer[i] := '\0';
    assert buffer[0..i] == Written(value, base);
    ghost var tail := buffer[i..];
    assert tail[0] == '\0' && tail[1..] == old(buffer[..])[i + 1..];
    Reverse(buffer, 0, i - 1);
    assert buffer[i..] == tail && buffer[i] == tail[0] && buffer[i + 1..] == tail[1..];
  }
}
