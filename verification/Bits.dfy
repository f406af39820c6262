/**
 Machine words. A word is the set of positions of its one bits, so that `|`, `&` and
 `& ~` are union, intersection and difference; shifts that leave the word drop bits.
 */
module Bits {

  type Word = set<nat>

  const LOW_BYTE: Word := {0, 1, 2, 3, 4, 5, 6, 7}
  const LOW_16: Word := {0, 1, 2, 3, 4, 5, 6, 7, 8, 9, 10, 11, 12, 13, 14, 15}

  predicate Fits(x: Word, width: nat) {
    forall i | i in x :: i < width
  }

  function Xor(x: Word, y: Word): (r: Word)
    ensures forall i: nat :: i in r <==> (i in x) != (i in y)
  {
    (x - y) + (y - x)
  }

  /** `x << k` in a word of `width` bits. */
  function Shl(x: Word, k: nat, width: nat): (r: Word)
    ensures forall j: nat :: j in r <==> k <= j < width && j - k in x
  {
    set i | i in x && i + k < width :: i + k
  }

  /** `x >> k`. */
  function Shr(x: Word, k: nat): (r: Word)
    ensures forall j: nat :: j in r <==> j + k in x
  {
    set i | i in x && k <= i :: i - k
  }

  /** The low `count` bits of a word, most significant first. */
  function BitsOf(x: Word, count: nat): (r: seq<bool>)
    ensures |r| == count && forall i | 0 <= i < count :: r[i] <==> count - 1 - i in x
  {
    seq(count, i requires 0 <= i < count => count - 1 - i in x)
  }

  /** The word a receiver collects from bits sent most significant first. */
  function WordOf(bits: seq<bool>): (x: Word)
    ensures forall p: nat :: p in x <==> p < |bits| && bits[|bits| - 1 - p]
  {
    set p: nat | p < |bits| && BitSet(bits, p)
  }

  predicate BitSet(bits: seq<bool>, p: nat)
    requires p < |bits|
  {
    bits[|bits| - 1 - p]
  }

  lemma WireRoundTrip(x: Word, count: nat)
    requires Fits(x, count)
    ensures WordOf(BitsOf(x, count)) == x
  {
  }

  /** The number in the low `width` bits of a word. */
  function Num(x: Word, width: nat): (n: nat)
    ensures n < Pow2(width)
  {
    if width == 0 then 0
    else Num(x, width - 1) + (if width - 1 in x then Pow2(width - 1) else 0)
  }

  function Pow2(n: nat): nat {
    if n == 0 then 1 else 2 * Pow2(n - 1)
  }

  /** The bits of a number below `2 ^ width`. */
  function Digits(n: nat, width: nat): (x: Word)
    requires n < Pow2(width)
    ensures Fits(x, width)
  {
    if width == 0 then {}
    else if Pow2(width - 1) <= n then Digits(n - Pow2(width - 1), width - 1) + {width - 1}
    else Digits(n, width - 1)
  }

  lemma {:induction false} NumIgnoresHighBits(x: Word, k: nat, width: nat)
    requires width <= k
    ensures Num(x + {k}, width) == Num(x, width)
  {
    if width > 0 {
      NumIgnoresHighBits(x, k, width - 1);
    }
  }

  lemma {:induction false} NumOfDigits(n: nat, width: nat)
    requires n < Pow2(width)
    ensures Num(Digits(n, width), width) == n
  {
    if width > 0 {
      if Pow2(width - 1) <= n {
        NumOfDigits(n - Pow2(width - 1), width - 1);
        NumIgnoresHighBits(Digits(n - Pow2(width - 1), width - 1), width - 1, width - 1);
      } else {
        NumOfDigits(n, width - 1);
      }
    }
  }

  lemma {:induction false} DigitsNarrow(n: nat, narrow: nat, width: nat)
    requires narrow <= width && n < Pow2(narrow)
    ensures n < Pow2(width) && Digits(n, width) == Digits(n, narrow)
  {
    if narrow < width {
      DigitsNarrow(n, narrow, width - 1);
    }
  }
}
