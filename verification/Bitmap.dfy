/** Bits of the frame bitmap: the word operations behind setBit, unsetBit, testBit and memset,
    given by the binary digits of the word, and the set of frames that a bitmap marks. */
module Bitmap {
  import opened Machine

  // ----- One word

  function Pow2(n: nat): nat {
    if n == 0 then 1 else 2 * Pow2(n - 1)
  }

  lemma {:induction false} Pow2Sum(a: nat, b: nat)
    ensures Pow2(a + b) == Pow2(a) * Pow2(b)
  {
    if a > 0 {
      Pow2Sum(a - 1, b);
    }
  }

  /** w & (1 << j), as a truth value: binary digit j of w. */
  predicate Test(w: nat, j: nat) {
    if j == 0 then w % 2 == 1 else Test(w / 2, j - 1)
  }

  /** w with digit j set to d: w | (1 << j) for a set digit, w & ~(1 << j) for a clear one. */
  function WithDigit(w: nat, j: nat, d: bool): nat {
    if j == 0 then w / 2 * 2 + (if d then 1 else 0) else 2 * WithDigit(w / 2, j - 1, d) + w % 2
  }

  lemma {:induction false} WithDigitTest(w: nat, j: nat, d: bool, k: nat)
    ensures Test(WithDigit(w, j, d), k) <==> if k == j then d else Test(w, k)
    decreases j
  {
    var v := WithDigit(w, j, d);
    if j == 0 {
      assert v / 2 == w / 2;
    } else {
      assert v / 2 == WithDigit(w / 2, j - 1, d) && v % 2 == w % 2;
      if k > 0 {
        WithDigitTest(w / 2, j - 1, d, k - 1);
      }
    }
  }

  /** Writing a digit adds or takes away the mask, so a word stays a word. */
  lemma {:induction false} WithDigitIs(w: nat, j: nat, d: bool)
    ensures WithDigit(w, j, d) == w + (if d && !Test(w, j) then Pow2(j) else 0)
                                    - (if !d && Test(w, j) then Pow2(j) else 0)
  {
    if j > 0 {
      WithDigitIs(w / 2, j - 1, d);
    }
  }

  lemma {:induction false} WithDigitFits(w: nat, j: nat, d: bool, n: nat)
    requires w < Pow2(n) && j < n
    ensures WithDigit(w, j, d) < Pow2(n)
  {
    assert Pow2(n) == 2 * Pow2(n - 1);
    assert w / 2 < Pow2(n - 1);
    if j > 0 {
      WithDigitFits(w / 2, j - 1, d, n - 1);
      assert WithDigit(w, j, d) == 2 * WithDigit(w / 2, j - 1, d) + w % 2;
    }
  }

  ghost predicate AllSet(w: nat, n: nat) {
    forall j: nat :: j < n ==> Test(w, j)
  }

  lemma {:induction false} AllOnes(w: nat, n: nat)
    requires w < Pow2(n)
    ensures w == Pow2(n) - 1 <==> AllSet(w, n)
  {
    if n > 0 {
      AllOnes(w / 2, n - 1);
      assert w == Pow2(n) - 1 <==> w % 2 == 1 && w / 2 == Pow2(n - 1) - 1;
      if AllSet(w, n) {
        assert Test(w, 0);
        forall j: nat | j < n - 1
          ensures Test(w / 2, j)
        {
          assert Test(w, j + 1);
        }
      }
      if w % 2 == 1 && AllSet(w / 2, n - 1) {
        forall j: nat | j < n
          ensures Test(w, j)
        {
          if j > 0 {
            assert j - 1 < n - 1;
          }
        }
      }
    }
  }

  lemma WordSize()
    ensures Pow2(32) == WORD
  {
    assert Pow2(4) == 16;
    Pow2Sum(4, 4);
    Pow2Sum(8, 8);
    Pow2Sum(16, 16);
  }

  /** The words have 32 digits, and the one that the search skips has them all set. */
  lemma FullWord(w: u32)
    ensures w == 0xFFFF_FFFF <==> AllSet(w, 32)
  {
    WordSize();
    AllOnes(w, 32);
  }

  /** The digits of the byte that memset stores. */
  predicate FillDigit(j: nat) {
    j < 4
  }

  /** w with its byte k replaced by 0x0F, digit by digit from the j-th of that byte on. */
  function StoreByte(w: nat, k: nat, j: nat): nat
    requires j <= 8
    decreases 8 - j, w
  {
    if j == 8 then w else StoreByte(WithDigit(w, 8 * k + j, FillDigit(j)), k, j + 1)
  }

  lemma {:induction false} StoredByte(w: nat, k: nat, j: nat, i: nat)
    requires j <= 8
    ensures Test(StoreByte(w, k, j), i) <==> if 8 * k + j <= i < 8 * k + 8 then FillDigit(i - 8 * k) else Test(w, i)
    decreases 8 - j
  {
    if j < 8 {
      StoredByte(WithDigit(w, 8 * k + j, FillDigit(j)), k, j + 1, i);
      WithDigitTest(w, 8 * k + j, FillDigit(j), i);
    }
  }

  lemma {:induction false} StoredFits(w: nat, k: nat, j: nat)
    requires j <= 8 && k < 4 && w < Pow2(32)
    ensures StoreByte(w, k, j) < Pow2(32)
    decreases 8 - j
  {
    if j < 8 {
      WithDigitFits(w, 8 * k + j, FillDigit(j), 32);
      StoredFits(WithDigit(w, 8 * k + j, FillDigit(j)), k, j + 1);
    }
  }

  // ----- Maps of words

  /** testBit on a map of words. */
  predicate Bit(m: seq<u32>, b: nat)
    requires b < 32 * |m|
  {
    Test(m[b / 32], b % 32)
  }

  /** The frames a bitmap marks as used. */
  ghost function Frames(m: seq<u32>): set<nat> {
    set b: nat | b < 32 * |m| && Bit(m, b)
  }

  predicate From(b: nat, k: nat) {
    b <= k
  }

  /** The frames b, b+1, ..., b+n-1. */
  function Interval(b: nat, n: nat): set<nat> {
    set k: nat | k < b + n && From(b, k)
  }

  lemma WordFits(w: u32, j: nat, d: bool)
    requires j < 32
    ensures WithDigit(w, j, d) < WORD
  {
    WordSize();
    WithDigitFits(w, j, d, 32);
  }

  /** Writing one digit of one word adds its frame to the set, or takes it out. */
  lemma WriteFrames(m: seq<u32>, b: nat, d: bool)
    requires b < 32 * |m|
    ensures WithDigit(m[b / 32], b % 32, d) < WORD
    ensures Frames(m[b / 32 := WithDigit(m[b / 32], b % 32, d)]) == if d then Frames(m) + {b} else Frames(m) - {b}
  {
    WordFits(m[b / 32], b % 32, d);
    var m' := m[b / 32 := WithDigit(m[b / 32], b % 32, d)];
    forall k: nat | k < 32 * |m|
      ensures Bit(m', k) <==> if k == b then d else Bit(m, k)
    {
      if k / 32 == b / 32 {
        WithDigitTest(m[b / 32], b % 32, d, k % 32);
      }
    }
  }

  /** Storing byte i of the map decides the frames of that byte and no others. */
  lemma StoreFrames(m: seq<u32>, i: nat, k: nat)
    requires i / 4 < |m| && k < 32 * |m|
    ensures StoreByte(m[i / 4], i % 4, 0) < WORD
    ensures Bit(m[i / 4 := StoreByte(m[i / 4], i % 4, 0)], k) <==> if k / 8 == i then FillDigit(k % 8) else Bit(m, k)
  {
    WordSize();
    StoredFits(m[i / 4], i % 4, 0);
    ByteIndex(k, i);
    if k / 32 == i / 4 {
      StoredByte(m[i / 4], i % 4, 0, k % 32);
    }
  }

  lemma ByteIndex(k: nat, i: nat)
    ensures k / 8 == i <==> k / 32 == i / 4 && 8 * (i % 4) <= k % 32 < 8 * (i % 4) + 8
    ensures k / 8 == i ==> k % 32 - 8 * (i % 4) == k % 8
  {
    var q, r := k / 32, k % 32;
    assert k == 32 * q + r && k / 8 == 4 * q + r / 8;
  }

  lemma {:induction false} IntervalSize(b: nat, n: nat)
    ensures |Interval(b, n)| == n
  {
    if n == 0 {
      assert Interval(b, n) == {};
    } else {
      IntervalSize(b, n - 1);
      assert Interval(b, n) == Interval(b, n - 1) + {b + n - 1};
    }
  }
}
