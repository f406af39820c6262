/**
 The IP header checksum: 32-bit accumulation with the carry added back, folded to 16
 bits at the end, against the definition of RFC 1071 on 16-bit halfwords.
 */
module IpChecksum {
  import opened Common

  type Half = x: nat | x <= 0xFFFF
  type Full = x: nat | x <= 0xFFFF_FFFF

  const M16: nat := 0xFFFF
  const M32: nat := 0xFFFF_FFFF
  const WRAP: nat := 0x1_0000_0000

  // ----- the definition -----

  /** Addition with end-around carry, in a word whose largest value is `max`. */
  function OnesAdd(a: nat, b: nat, max: nat): (r: nat)
    requires a <= max && b <= max
    ensures r <= max
  {
    if a + b > max then a + b - max else a + b
  }

  /** The 16-bit one's complement sum. */
  function OnesSum(hs: seq<Half>): Half {
    if hs == [] then 0 else OnesAdd(OnesSum(hs[..|hs| - 1]), hs[|hs| - 1], M16)
  }

  /** The two halves of each 32-bit word, as a little-endian host finds them in memory. */
  function Halves(ws: seq<Full>): (hs: seq<Half>)
    ensures |hs| == 2 * |ws|
  {
    if ws == [] then []
    else Halves(ws[..|ws| - 1]) + [ws[|ws| - 1] % 65536, ws[|ws| - 1] / 65536]
  }

  // ----- sums and residues -----

  /** `c` is the number in 0..max that a one's complement sum of total `s` must be. */
  ghost predicate Residue(c: nat, s: nat, max: nat) {
    c <= max && (c == 0 <==> s == 0) && exists q: int :: s == c + Times(max, q)
  }

  function Times(max: nat, q: int): int {
    max * q
  }

  lemma MakeResidue(c: nat, s: nat, max: nat, q: int)
    requires c <= max && (c == 0 <==> s == 0) && s == c + max * q
    ensures Residue(c, s, max)
  {
    assert s == c + Times(max, q);
  }

  lemma ResidueAdd(a: nat, s: nat, b: nat, max: nat)
    requires max == M16 || max == M32
    requires Residue(a, s, max) && b <= max
    ensures Residue(OnesAdd(a, b, max), s + b, max)
  {
    var q: int :| s == a + Times(max, q);
    MakeResidue(OnesAdd(a, b, max), s + b, max, if a + b > max then q + 1 else q);
  }

  lemma ResidueUnique(a: nat, b: nat, s: nat)
    requires Residue(a, s, M16) && Residue(b, s, M16)
    ensures a == b
  {
    var p: int :| s == a + Times(M16, p);
    var q: int :| s == b + Times(M16, q);
    assert a - b == 65535 * (q - p);
  }

  lemma {:induction false} OnesSumIsResidue(hs: seq<Half>)
    ensures Residue(OnesSum(hs), Sum(hs), M16)
  {
    hide Residue, OnesAdd;
    if hs == [] {
      MakeResidue(0, 0, M16, 0);
    } else {
      OnesSumIsResidue(hs[..|hs| - 1]);
      ResidueAdd(OnesSum(hs[..|hs| - 1]), Sum(hs[..|hs| - 1]), hs[|hs| - 1], M16);
    }
  }

  /** 2^32 - 1 is a multiple of 2^16 - 1, and folding keeps the residue. */
  lemma FoldKeepsResidue(c: Full, s: nat)
    requires Residue(c, s, M32)
    ensures Residue(OnesAdd(c / 65536, c % 65536, M16), s, M16)
  {
    var q: int :| s == c + Times(M32, q);
    var hi, lo := c / 65536, c % 65536;
    assert c == 65536 * hi + lo;
    MakeResidue(OnesAdd(hi, lo, M16), s, M16, hi + 65537 * q + (if hi + lo > M16 then 1 else 0));
  }

  /** Replacing words by their halves changes the total by a multiple of 2^16 - 1. */
  lemma {:induction false} HalvesSum(ws: seq<Full>) returns (q: nat)
    ensures Sum(ws) == Sum(Halves(ws)) + 65535 * q && (Sum(ws) == 0 <==> Sum(Halves(ws)) == 0)
  {
    if ws == [] {
      q := 0;
    } else {
      var front, w := ws[..|ws| - 1], ws[|ws| - 1];
      var p := HalvesSum(front);
      SumTwo(Halves(front), w % 65536, w / 65536);
      q := p + w / 65536;
    }
  }

  lemma SumTwo(hs: seq<nat>, a: nat, b: nat)
    ensures Sum(hs + [a, b]) == Sum(hs) + a + b
  {
    assert (hs + [a, b])[..|hs| + 1] == hs + [a];
    assert (hs + [a])[..|hs|] == hs;
  }

  lemma ResidueOfHalves(c: nat, ws: seq<Full>)
    requires Residue(c, Sum(ws), M16)
    ensures c == OnesSum(Halves(ws))
  {
    var p := HalvesSum(ws);
    var q: int :| Sum(ws) == c + Times(M16, q);
    MakeResidue(c, Sum(Halves(ws)), M16, q - p);
    OnesSumIsResidue(Halves(ws));
    ResidueUnique(c, OnesSum(Halves(ws)), Sum(Halves(ws)));
  }

  // ----- the code -----

  /** `csum += w; carry = (csum < w); csum += carry;` */
  method AddWord(csum: Full, w: Full) returns (r: Full)
    ensures r == OnesAdd(csum, w, M32)
  {
    var s := (csum + w) % WRAP;
    var carry := if s < w then 1 else 0;
    r := (s + carry) % WRAP;
  }

  method CsumFold(csum: Full) returns (r: Half)
    ensures r == M16 - OnesAdd(csum / 65536, csum % 65536, M16)
  {
    ghost var hi, lo := csum / 65536, csum % 65536;
    assert csum == hi * 65536 + lo && hi < 65536;
    ShiftedSum(csum);
    hide OnesAdd;
    var sum := csum;
    sum := (sum + (sum * 65536) % WRAP) % WRAP;
    CarryOut(csum, hi, lo, sum);
    var carry := if sum < csum then 1 else 0;
    sum := sum / 65536;
    sum := (sum + carry) % WRAP;
    r := M16 - sum % 65536;
  }

  /** Adding the low half on top of the high half, shifted up, carries out exactly when it wraps. */
  lemma CarryOut(csum: Full, hi: nat, lo: nat, sum: nat)
    requires csum == hi * 65536 + lo && hi < 65536 && lo < 65536
    requires sum == (if hi + lo < 65536 then hi + lo else hi + lo - 65536) * 65536 + lo
    ensures sum / 65536 + (if sum < csum then 1 else 0) == OnesAdd(hi, lo, M16)
  {
  }

  lemma ShiftedSum(csum: Full)
    ensures var hi, lo := csum / 65536, csum % 65536;
      (csum + (csum * 65536) % WRAP) % WRAP == (if hi + lo < 65536 then hi + lo else hi + lo - 65536) * 65536 + lo
  {
    var hi, lo := csum / 65536, csum % 65536;
    assert csum * 65536 == lo * 65536 + hi * WRAP;
    WrapOf(csum * 65536, hi, lo * 65536);
    if hi + lo < 65536 {
      WrapOf(csum + lo * 65536, 0, (hi + lo) * 65536 + lo);
    } else {
      WrapOf(csum + lo * 65536, 1, (hi + lo - 65536) * 65536 + lo);
    }
  }

  lemma WrapOf(a: nat, k: nat, r: nat)
    requires a == k * WRAP + r && r < WRAP
    ensures a % WRAP == r
  {
  }

  /** ip_fast_csum: the complement of the one's complement sum of all halfwords. */
  method IpFastCsum(word: seq<Full>) returns (r: Half)
    requires |word| >= 5
    ensures r == Checksum(word) && Residue(M16 - r, Sum(Halves(word)), M16)
  {
    hide Residue, OnesAdd;
    var csum := word[0];
    assert word[..1] == [word[0]];
    MakeResidue(csum, csum, M32, 0);
    for i := 1 to 4
      invariant Residue(csum, Sum(word[..i]), M32)
    {
      SumStep(word, i);
      ResidueAdd(csum, Sum(word[..i]), word[i], M32);
      csum := AddWord(csum, word[i]);
    }
    var i, stop := 4, |word|;
    while true
      invariant 4 <= i < stop && Residue(csum, Sum(word[..i]), M32)
      decreases stop - i
    {
      SumStep(word, i);
      ResidueAdd(csum, Sum(word[..i]), word[i], M32);
      csum := AddWord(csum, word[i]);
      i := i + 1;
      if i == stop { break; }
    }
    assert word[..i] == word;
    FoldKeepsResidue(csum, Sum(word));
    ResidueOfHalves(OnesAdd(csum / 65536, csum % 65536, M16), word);
    r := CsumFold(csum);
    OnesSumIsResidue(Halves(word));
  }

  lemma SumStep(word: seq<nat>, i: nat)
    requires i < |word|
    ensures Sum(word[..i + 1]) == Sum(word[..i]) + word[i]
  {
    assert word[..i + 1][..i] == word[..i];
  }

  // ----- what follows -----

  function Checksum(ws: seq<Full>): Half {
    M16 - OnesSum(Halves(ws))
  }

  /** The checksum field is bytes 10 and 11: the upper half of the third word. */
  function Store(ws: seq<Full>, x: Half): (r: seq<Full>)
    requires |ws| >= 5
    ensures |r| == |ws|
  {
    ws[2 := ws[2] % 65536 + 65536 * x]
  }

  lemma {:induction false} HalvesAt(ws: seq<Full>, i: nat)
    requires i < |ws|
    ensures Halves(ws)[2 * i] == ws[i] % 65536 && Halves(ws)[2 * i + 1] == ws[i] / 65536
  {
    if i < |ws| - 1 {
      HalvesAt(ws[..|ws| - 1], i);
    }
  }

  lemma PackField(w: Full, x: Half)
    ensures var v := w % 65536 + 65536 * x; v <= M32 && v % 65536 == w % 65536 && v / 65536 == x
  {
  }

  lemma StoreHalf(ws: seq<Full>, x: Half, i: nat)
    requires |ws| >= 5 && i < |ws|
    ensures Halves(Store(ws, x))[2 * i] == Halves(ws)[2 * i]
    ensures Halves(Store(ws, x))[2 * i + 1] == if i == 2 then x else Halves(ws)[2 * i + 1]
  {
    hide Halves, Store;
    HalvesAt(Store(ws, x), i);
    HalvesAt(ws, i);
    StoreAt(ws, x, i);
  }

  lemma StoreAt(ws: seq<Full>, x: Half, i: nat)
    requires |ws| >= 5 && i < |ws|
    ensures Store(ws, x)[i] % 65536 == ws[i] % 65536
    ensures Store(ws, x)[i] / 65536 == if i == 2 then x else ws[i] / 65536
  {
    if i == 2 {
      PackField(ws[2], x);
    }
  }

  lemma StoreHalves(ws: seq<Full>, x: Half)
    requires |ws| >= 5
    ensures Halves(Store(ws, x)) == Halves(ws)[5 := x]
  {
    hide Halves, Store;
    forall k | 0 <= k < 2 * |ws| ensures Halves(Store(ws, x))[k] == Halves(ws)[5 := x][k] {
      StoreHalf(ws, x, k / 2);
      assert k == 2 * (k / 2) || k == 2 * (k / 2) + 1;
    }
  }

  lemma {:induction false} SumUpdate(xs: seq<nat>, k: nat, x: nat)
    requires k < |xs|
    ensures Sum(xs[k := x]) == Sum(xs) - xs[k] + x
  {
    var n := |xs| - 1;
    if k < n {
      assert xs[k := x][..n] == xs[..n][k := x];
      SumUpdate(xs[..n], k, x);
    } else {
      assert xs[k := x][..n] == xs[..n];
    }
  }

  /** A receiver recomputes zero exactly when the stored field is the computed checksum, or
      is all ones where the computed checksum is zero, its other representation. */
  lemma VerifiesIff(ws: seq<Full>, x: Half)
    requires |ws| >= 5 && ws[2] / 65536 == 0
    ensures Checksum(Store(ws, x)) == 0 <==> x == Checksum(ws) || (Checksum(ws) == 0 && x == M16)
  {
    hide OnesSum, Sum, Halves;
    var hs := Halves(ws);
    HalvesAt(ws, 2);
    StoreHalves(ws, x);
    SumUpdate(hs, 5, x);
    OnesSumIsResidue(hs);
    OnesSumIsResidue(hs[5 := x]);
    var c, d := OnesSum(hs), OnesSum(hs[5 := x]);
    var p: int :| Sum(hs) == c + Times(M16, p);
    var q: int :| Sum(hs) + x == d + Times(M16, q);
    FullIff(c, x, d, p - q);
  }

  lemma FullIff(c: Half, x: Half, d: Half, k: int)
    requires d == c + x + 65535 * k && (d == 0 <==> c == 0 && x == 0)
    ensures d == M16 <==> c + x == M16 || (c == M16 && x == M16)
  {
  }

  function Swap(h: Half): Half {
    (h % 256) * 256 + h / 256
  }

  function SwapAll(hs: seq<Half>): (r: seq<Half>)
    ensures |r| == |hs| && forall i | 0 <= i < |hs| :: r[i] == Swap(hs[i])
  {
    seq(|hs|, i requires 0 <= i < |hs| => Swap(hs[i]))
  }

  lemma {:induction false} SwapSum(hs: seq<Half>) returns (q: nat)
    ensures 256 * Sum(hs) == Sum(SwapAll(hs)) + 65535 * q && (Sum(hs) == 0 <==> Sum(SwapAll(hs)) == 0)
  {
    if hs == [] {
      q := 0;
    } else {
      var front, h := hs[..|hs| - 1], hs[|hs| - 1];
      var p := SwapSum(front);
      assert SwapAll(hs)[..|hs| - 1] == SwapAll(front);
      q := p + h / 256;
    }
  }

  lemma SwapFacts(c: Half)
    ensures 256 * c == Swap(c) + 65535 * (c / 256) && (Swap(c) == 0 <==> c == 0)
    ensures Swap(M16 - c) == M16 - Swap(c)
  {
    var a, b := c / 256, c % 256;
    assert (M16 - c) / 256 == 255 - a && (M16 - c) % 256 == 255 - b;
  }

  lemma SwapResidue(c: Half, s: nat, t: nat, p: nat)
    requires Residue(c, s, M16) && 256 * s == t + 65535 * p && (s == 0 <==> t == 0)
    ensures Residue(Swap(c), t, M16)
  {
    hide Swap;
    SwapFacts(c);
    var q: int :| s == c + Times(M16, q);
    MakeResidue(Swap(c), t, M16, c / 256 + 256 * q - p);
  }

  /** The checksum does not depend on the byte order of the host: exchanging the bytes of
      every halfword exchanges the bytes of the result. */
  lemma ByteOrderIndependence(hs: seq<Half>)
    ensures OnesSum(SwapAll(hs)) == Swap(OnesSum(hs))
    ensures M16 - OnesSum(SwapAll(hs)) == Swap(M16 - OnesSum(hs))
  {
    hide OnesSum, Sum, SwapAll, Residue, Swap;
    var c := OnesSum(hs);
    var p := SwapSum(hs);
    SwapFacts(c);
    OnesSumIsResidue(hs);
    OnesSumIsResidue(SwapAll(hs));
    SwapResidue(c, Sum(hs), Sum(SwapAll(hs)), p);
    ResidueUnique(Swap(c), OnesSum(SwapAll(hs)), Sum(SwapAll(hs)));
  }
}
