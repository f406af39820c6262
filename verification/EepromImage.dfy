/**
 The contents of the EEPROM as the driver checks them: a checksum over the first words and
 over the sections that pointers lead to.
 */
module EepromImage {
  import opened Common

  type U16 = x: nat | x < 65536

  const CHECKSUM_WORD: nat := 0x3F
  const EEPROM_SUM: nat := 0xBABA
  const PCIE_ANALOG_PTR: nat := 0x03
  const FW_PTR: nat := 0x0F
  const ERR_EEPROM_CHECKSUM: int := -2

  // ----- what the checksum covers -----

  predicate Sized(ws: seq<U16>) {
    64 <= |ws| <= 32768
  }

  /** The pointer at word `i` leads to a section: a length followed by that many words. */
  predicate Active(ws: seq<U16>, i: nat)
    requires i < |ws|
  {
    var p := ws[i];
    p != 0xFFFF && p != 0 && p < |ws| && ws[p] != 0xFFFF && ws[p] != 0
  }

  /** Every followed pointer and every section lies inside the EEPROM. */
  ghost predicate InRange(ws: seq<U16>) {
    && Sized(ws)
    && (forall i | PCIE_ANALOG_PTR <= i < FW_PTR && ws[i] != 0xFFFF && ws[i] != 0 :: ws[i] < |ws|)
    && (forall i | PCIE_ANALOG_PTR <= i < FW_PTR && Active(ws, i) :: ws[i] + ws[ws[i]] < |ws|)
  }

  function SectionSum(ws: seq<U16>, i: nat): nat
    requires i < |ws|
  {
    if Active(ws, i) then
      var p: nat, n: nat := ws[i], ws[ws[i]];
      if p + n < |ws| then Sum(ws[p + 1..p + n + 1]) else 0
    else 0
  }

  /** The sections of the pointers in words 3 up to `n`. */
  function SectionsSum(ws: seq<U16>, n: nat): nat
    requires PCIE_ANALOG_PTR <= n <= FW_PTR && Sized(ws)
  {
    if n == PCIE_ANALOG_PTR then 0 else SectionsSum(ws, n - 1) + SectionSum(ws, n - 1)
  }

  function CoveredSum(ws: seq<U16>): nat
    requires Sized(ws)
  {
    Sum(ws[..CHECKSUM_WORD]) + SectionsSum(ws, FW_PTR)
  }

  function Checksum(ws: seq<U16>): U16
    requires Sized(ws)
  {
    (EEPROM_SUM - CoveredSum(ws)) % 65536
  }

  // ----- the code -----

  lemma SumStep(ws: seq<U16>, a: nat, b: nat)
    requires a <= b < |ws|
    ensures Sum(ws[a..b + 1]) == Sum(ws[a..b]) + ws[b]
  {
    assert ws[a..b + 1][..b - a] == ws[a..b];
  }

  lemma ModAdd(a: nat, b: nat)
    ensures (a % 65536 + b) % 65536 == (a + b) % 65536
  {
  }

  lemma ModSub(a: nat, b: nat)
    ensures (a - b % 65536) % 65536 == (a - b) % 65536
  {
  }

  class Eeprom {
    var words: seq<U16>

    /** A read past the end fails and leaves the caller's variable alone. */
    method Read(offset: nat, was: U16) returns (status: int, word: U16)
      ensures offset < |words| ==> status == 0 && word == words[offset]
      ensures offset >= |words| ==> status != 0 && word == was
    {
      if offset >= |words| {
        return -1, was;
      }
      return 0, words[offset];
    }

    method Write(offset: nat, word: U16) returns (status: int)
      modifies this
      ensures offset < |old(words)| ==> status == 0 && words == old(words)[offset := word]
      ensures offset >= |old(words)| ==> status != 0 && words == old(words)
    {
      if offset >= |words| {
        return -1;
      }
      words := words[offset := word];
      return 0;
    }

    /** ixgbe_calc_eeprom_checksum */
    method CalcChecksum() returns (checksum: U16)
      requires Sized(words) && InRange(words)
      ensures checksum == Checksum(words)
    {
      hide Sum, SectionsSum, InRange;
      checksum := AddWords();
      checksum := AddSections(checksum);
      ModAdd(Sum(words[..CHECKSUM_WORD]), SectionsSum(words, FW_PTR));
      ModSub(EEPROM_SUM, CoveredSum(words));
      checksum := (EEPROM_SUM - checksum) % 65536;
    }

    /** Its first loop: the words in front of the checksum. */
    method AddWords() returns (checksum: U16)
      requires Sized(words)
      ensures checksum == Sum(words[..CHECKSUM_WORD]) % 65536
    {
      hide Sum;
      checksum := 0;
      var word := 0;
      var status: int;
      NoneSummed(words);
      for i := 0 to CHECKSUM_WORD
        invariant checksum == Sum(words[..i]) % 65536
      {
        status, word := Read(i, word);
        if status != 0 {
          break;
        }
        SumStep(words, 0, i);
        ModAdd(Sum(words[0..i]), word);
        checksum := (checksum + word) % 65536;
      }
    }

    /** Its second loop: the sections the pointers lead to. */
    method AddSections(sum: U16) returns (checksum: U16)
      requires Sized(words) && InRange(words)
      ensures checksum == (sum + SectionsSum(words, FW_PTR)) % 65536
    {
      hide Sum, InRange, SectionSum;
      checksum := sum;
      var pointer, length := 0, 0;
      var status: int;
      for i := PCIE_ANALOG_PTR to FW_PTR
        invariant checksum == (sum + SectionsSum(words, i)) % 65536
      {
        status, pointer := Read(i, pointer);
        SectionAt(words, i);
        ModAdd(sum + SectionsSum(words, i), SectionSum(words, i));
        if pointer != 0xFFFF && pointer != 0 {
          status, length := Read(pointer, length);
          if length != 0xFFFF && length != 0 {
            checksum := AddSection(checksum, pointer, length);
          }
        }
      }
    }

    /** ixgbe_validate_eeprom_checksum_generic: succeeds exactly when the covered words and the
        checksum word add up to the magic sum. */
    method Validate() returns (status: int, checksumVal: U16)
      requires Sized(words) && InRange(words)
      ensures status == 0 <==> (CoveredSum(words) + words[CHECKSUM_WORD]) % 65536 == EEPROM_SUM
      ensures checksumVal == Checksum(words)
    {
      hide InRange, CoveredSum, Checksum;
      ValidIff(words);
      var checksum: U16 := 0;
      status, checksum := Read(0, checksum);
      checksum := CalcChecksum();
      var _, readChecksum := Read(CHECKSUM_WORD, 0);
      if readChecksum != checksum {
        status := ERR_EEPROM_CHECKSUM;
      }
      checksumVal := checksum;
    }

    /** ixgbe_update_eeprom_checksum_generic */
    method Update() returns (status: int)
      requires Sized(words) && InRange(words)
      modifies this
      ensures status == 0 && words == old(words)[CHECKSUM_WORD := Checksum(old(words))]
    {
      hide InRange, Checksum;
      var checksum: U16 := 0;
      status, checksum := Read(0, checksum);
      if status == 0 {
        checksum := CalcChecksum();
        status := Write(CHECKSUM_WORD, checksum);
      }
    }

    /** The inner loop, whose 16-bit counter runs to the end of the section. */
    method AddSection(sum: U16, pointer: U16, length: U16) returns (r: U16)
      requires Sized(words) && pointer + length < |words|
      ensures r == (sum + Sum(words[pointer + 1..pointer + length + 1])) % 65536
    {
      hide Sum;
      r := sum;
      var word := 0;
      var status: int;
      var j := (pointer + 1) % 65536;
      NothingSummed(words, j);
      while j <= pointer + length
        invariant pointer + 1 <= j <= pointer + length + 1
        invariant r == (sum + Sum(words[pointer + 1..j])) % 65536
      {
        status, word := Read(j, word);
        SumStep(words, pointer + 1, j);
        ModAdd(sum + Sum(words[pointer + 1..j]), word);
        r := (r + word) % 65536;
        j := (j + 1) % 65536;
      }
    }
  }

  lemma ValidIff(ws: seq<U16>)
    requires Sized(ws)
    ensures Checksum(ws) == ws[CHECKSUM_WORD] <==> (CoveredSum(ws) + ws[CHECKSUM_WORD]) % 65536 == EEPROM_SUM
  {
    hide CoveredSum;
    SumIff(CoveredSum(ws), ws[CHECKSUM_WORD]);
  }

  lemma SumIff(s: int, w: U16)
    ensures (EEPROM_SUM - s) % 65536 == w <==> (s + w) % 65536 == EEPROM_SUM
  {
    if (EEPROM_SUM - s) % 65536 == w {
      ModOf(s + w, -((EEPROM_SUM - s) / 65536), EEPROM_SUM);
    }
    if (s + w) % 65536 == EEPROM_SUM {
      ModOf(EEPROM_SUM - s, -((s + w) / 65536), w);
    }
  }

  lemma ModOf(a: int, k: int, r: nat)
    requires a == 65536 * k + r && r < 65536
    ensures a % 65536 == r
  {
  }

  lemma NoneSummed(ws: seq<U16>)
    ensures Sum(ws[..0]) == 0
  {
  }

  lemma NothingSummed(ws: seq<U16>, j: nat)
    requires j <= |ws|
    ensures Sum(ws[j..j]) == 0
  {
  }

  lemma SectionAt(ws: seq<U16>, i: nat)
    requires InRange(ws) && PCIE_ANALOG_PTR <= i < FW_PTR
    ensures ws[i] != 0xFFFF && ws[i] != 0 ==> ws[i] < |ws|
    ensures Active(ws, i) ==>
      var p: nat, n: nat := ws[i], ws[ws[i]];
      p + n < |ws| && SectionSum(ws, i) == Sum(ws[p + 1..p + n + 1])
    ensures !Active(ws, i) ==> SectionSum(ws, i) == 0
  {
  }

  // ----- update makes validate succeed -----

  /** The section of the pointer at word `i` contains word `k`. */
  predicate Contains(ws: seq<U16>, i: nat, k: nat)
    requires i < |ws|
  {
    Active(ws, i) && (var p: nat, n: nat := ws[i], ws[ws[i]]; p < k <= p + n)
  }

  /** How many of the sections of words 3 up to `n` contain word `k`. */
  function Containing(ws: seq<U16>, n: nat, k: nat): nat
    requires PCIE_ANALOG_PTR <= n <= FW_PTR && Sized(ws)
  {
    if n == PCIE_ANALOG_PTR then 0 else Containing(ws, n - 1, k) + (if Contains(ws, n - 1, k) then 1 else 0)
  }

  /** How often the checksum counts word `k`. */
  function Counted(ws: seq<U16>, k: nat): nat
    requires Sized(ws)
  {
    Containing(ws, FW_PTR, k) + (if k < CHECKSUM_WORD then 1 else 0)
  }

  /** Word `k` is neither a pointer nor the length of a section. */
  ghost predicate Plain(ws: seq<U16>, k: nat)
    requires Sized(ws)
  {
    && (k < PCIE_ANALOG_PTR || FW_PTR <= k < |ws|)
    && forall i | PCIE_ANALOG_PTR <= i < FW_PTR && ws[i] != 0 :: ws[i] != k
  }

  lemma {:induction false} SumUpdate(ws: seq<U16>, k: nat, x: U16, a: nat, b: nat)
    requires k < |ws| && a <= b <= |ws|
    ensures Sum(ws[k := x][a..b]) == Sum(ws[a..b]) + (if a <= k < b then x - ws[k] else 0)
    decreases b
  {
    if a < b {
      SumUpdate(ws, k, x, a, b - 1);
      SumStep(ws, a, b - 1);
      SumStep(ws[k := x], a, b - 1);
    }
  }

  lemma SectionUpdate(ws: seq<U16>, k: nat, x: U16, i: nat)
    requires Sized(ws) && InRange(ws) && Plain(ws, k) && PCIE_ANALOG_PTR <= i < FW_PTR
    ensures var ws' := ws[k := x];
      && (Active(ws', i) <==> Active(ws, i))
      && SectionSum(ws', i) == SectionSum(ws, i) + (if Contains(ws, i, k) then x - ws[k] else 0)
  {
    hide Sum;
    if Active(ws, i) {
      var p: nat, n: nat := ws[i], ws[ws[i]];
      SumUpdate(ws, k, x, p + 1, p + n + 1);
    }
  }

  lemma {:induction false} SectionsUpdate(ws: seq<U16>, k: nat, x: U16, n: nat)
    requires Sized(ws) && InRange(ws) && Plain(ws, k) && PCIE_ANALOG_PTR <= n <= FW_PTR
    ensures SectionsSum(ws[k := x], n) == SectionsSum(ws, n) + Containing(ws, n, k) * (x - ws[k])
  {
    hide SectionSum, Contains, InRange;
    if n > PCIE_ANALOG_PTR {
      SectionsUpdate(ws, k, x, n - 1);
      SectionUpdate(ws, k, x, n - 1);
      var m, d := Containing(ws, n - 1, k), x - ws[k];
      assert (m + 1) * d == m * d + d;
    }
  }

  lemma UpdateStaysInRange(ws: seq<U16>, k: nat, x: U16)
    requires Sized(ws) && InRange(ws) && Plain(ws, k)
    ensures InRange(ws[k := x]) && Plain(ws[k := x], k)
  {
  }

  /** Changing a word changes the covered sum by the difference, as often as the word is counted. */
  lemma CoveredUpdate(ws: seq<U16>, k: nat, x: U16)
    requires Sized(ws) && InRange(ws) && Plain(ws, k)
    ensures CoveredSum(ws[k := x]) == CoveredSum(ws) + Counted(ws, k) * (x - ws[k])
  {
    hide InRange, SectionsSum, Containing, Sum;
    SectionsUpdate(ws, k, x, FW_PTR);
    SumUpdate(ws, k, x, 0, CHECKSUM_WORD);
    assert ws[k := x][0..CHECKSUM_WORD] == ws[k := x][..CHECKSUM_WORD] && ws[0..CHECKSUM_WORD] == ws[..CHECKSUM_WORD];
    var m, d := Containing(ws, FW_PTR, k), x - ws[k];
    assert (m + 1) * d == m * d + d;
  }

  /** So the checksum follows every word it covers; a word in front of it and in no section counts once. */
  lemma ChecksumFollows(ws: seq<U16>, k: nat, x: U16)
    requires Sized(ws) && InRange(ws) && Plain(ws, k)
    ensures Checksum(ws[k := x]) == (Checksum(ws) - Counted(ws, k) * (x - ws[k])) % 65536
    ensures k < CHECKSUM_WORD && Containing(ws, FW_PTR, k) == 0 ==>
      (Checksum(ws[k := x]) + x) % 65536 == (Checksum(ws) + ws[k]) % 65536
  {
    hide InRange, CoveredSum, Containing;
    CoveredUpdate(ws, k, x);
    ModFollows(CoveredSum(ws), Counted(ws, k) * (x - ws[k]), x, ws[k]);
  }

  lemma ModFollows(s: int, d: int, x: int, w: int)
    ensures (EEPROM_SUM - (s + d)) % 65536 == ((EEPROM_SUM - s) % 65536 - d) % 65536
    ensures d == x - w ==> ((EEPROM_SUM - (s + d)) % 65536 + x) % 65536 == ((EEPROM_SUM - s) % 65536 + w) % 65536
  {
  }

  /** Storing the computed checksum makes the image valid exactly when the sections that contain
      the checksum word do not change the sum by it; in particular when there are none. */
  lemma UpdateMakesValidIff(ws: seq<U16>)
    requires Sized(ws) && InRange(ws) && Plain(ws, CHECKSUM_WORD)
    ensures var after := ws[CHECKSUM_WORD := Checksum(ws)];
      (CoveredSum(after) + after[CHECKSUM_WORD]) % 65536 == EEPROM_SUM
      <==> (Containing(ws, FW_PTR, CHECKSUM_WORD) * (Checksum(ws) - ws[CHECKSUM_WORD])) % 65536 == 0
    ensures Containing(ws, FW_PTR, CHECKSUM_WORD) == 0 ==>
      var after := ws[CHECKSUM_WORD := Checksum(ws)];
      (CoveredSum(after) + after[CHECKSUM_WORD]) % 65536 == EEPROM_SUM
  {
    hide InRange, Plain, CoveredSum, Containing;
    CoveredUpdate(ws, CHECKSUM_WORD, Checksum(ws));
    ModShift(CoveredSum(ws), Containing(ws, FW_PTR, CHECKSUM_WORD) * (Checksum(ws) - ws[CHECKSUM_WORD]));
  }

  lemma ModShift(s: int, d: int)
    ensures (s + d + (EEPROM_SUM - s) % 65536) % 65536 == EEPROM_SUM <==> d % 65536 == 0
  {
  }

  /** A one-word section that is the checksum word. */
  function Overlapped(sum: U16): (ws: seq<U16>)
    ensures |ws| == 64 && ws[CHECKSUM_WORD] == sum
  {
    seq(64, i => if i == CHECKSUM_WORD then sum else if i == 3 then 0x3E as U16 else if i == 0x3E then 1 else 0)
  }

  lemma OverlappedUpdate(sum: U16, x: U16)
    ensures Overlapped(sum)[CHECKSUM_WORD := x] == Overlapped(x)
  {
    forall i | 0 <= i < 64 ensures Overlapped(sum)[CHECKSUM_WORD := x][i] == Overlapped(x)[i] {
    }
  }

  lemma OverlapsOnce(sum: U16)
    ensures var ws := Overlapped(sum);
      InRange(ws) && Plain(ws, CHECKSUM_WORD) && Containing(ws, FW_PTR, CHECKSUM_WORD) == 1
  {
    var ws := Overlapped(sum);
    assert Sized(ws) && Active(ws, 3) && Contains(ws, 3, CHECKSUM_WORD);
    assert forall i | 4 <= i < FW_PTR :: !Contains(ws, i, CHECKSUM_WORD);
    hide Containing, Contains;
    OneOverlap(ws, FW_PTR);
  }

  lemma OverlappedIff(sum: U16)
    ensures var ws := Overlapped(sum);
      var after := ws[CHECKSUM_WORD := Checksum(ws)];
      && InRange(ws) && Plain(ws, CHECKSUM_WORD)
      && ((CoveredSum(after) + after[CHECKSUM_WORD]) % 65536 == EEPROM_SUM <==> Checksum(ws) == sum)
  {
    var ws := Overlapped(sum);
    hide CoveredSum, InRange, Plain, Containing, Overlapped, Checksum;
    OverlapsOnce(sum);
    UpdateMakesValidIff(ws);
    SameResidue(Checksum(ws), sum);
  }

  lemma SameResidue(a: U16, b: U16)
    ensures (1 * (a - b)) % 65536 == 0 <==> a == b
  {
  }

  lemma NotBoth(c: nat)
    ensures (EEPROM_SUM - c) % 65536 != 0 || (EEPROM_SUM - (c + 1)) % 65536 != 1
  {
  }

  lemma ChecksumsDiffer()
    ensures Checksum(Overlapped(0)) != 0 || Checksum(Overlapped(1)) != 1
  {
    hide CoveredSum, InRange, Plain, Containing, Overlapped;
    OverlappedUpdate(0, 1);
    OverlapsOnce(0);
    CoveredUpdate(Overlapped(0), CHECKSUM_WORD, 1);
    NotBoth(CoveredSum(Overlapped(0)));
  }

  /** An image with a section over the checksum word that updating does not make valid. */
  lemma OverlapBreaksUpdate() returns (ws: seq<U16>)
    ensures InRange(ws) && Plain(ws, CHECKSUM_WORD)
    ensures var after := ws[CHECKSUM_WORD := Checksum(ws)];
      (CoveredSum(after) + after[CHECKSUM_WORD]) % 65536 != EEPROM_SUM
  {
    hide CoveredSum, Checksum, InRange, Plain, Overlapped;
    OverlappedIff(0);
    OverlappedIff(1);
    ChecksumsDiffer();
    ws := if Checksum(Overlapped(0)) == 0 then Overlapped(1) else Overlapped(0);
  }

  lemma {:induction false} OneOverlap(ws: seq<U16>, n: nat)
    requires Sized(ws) && PCIE_ANALOG_PTR < n <= FW_PTR && Contains(ws, 3, CHECKSUM_WORD)
    requires forall i | 4 <= i < FW_PTR :: !Contains(ws, i, CHECKSUM_WORD)
    ensures Containing(ws, n, CHECKSUM_WORD) == 1
  {
    hide Contains;
    if n > 4 {
      OneOverlap(ws, n - 1);
    } else {
      assert Containing(ws, 3, CHECKSUM_WORD) == 0;
    }
  }

  // ----- a pointer to the checksum word -----

  lemma {:induction false} SumZeros(ws: seq<U16>, n: nat)
    requires n <= |ws| && forall i | 0 <= i < n :: ws[i] == 0
    ensures Sum(ws[0..n]) == 0
  {
    if n > 0 {
      SumZeros(ws, n - 1);
      SumStep(ws, 0, n - 1);
    }
  }

  const ZEROS: seq<U16> := seq(64, _ => 0)

  /** Word 3 takes the checksum word for the length of a section; the rest is zero. */
  const POINTED: seq<U16> := ZEROS[3 := 0x3F]

  lemma PointedSum()
    ensures Sized(POINTED) && Checksum(POINTED) == 0xBA7B
  {
    SumZeros(ZEROS, CHECKSUM_WORD);
    SumUpdate(ZEROS, 3, 0x3F, 0, CHECKSUM_WORD);
    assert POINTED[..CHECKSUM_WORD] == POINTED[0..CHECKSUM_WORD];
    PointedSections(FW_PTR);
  }

  lemma {:induction false} PointedSections(n: nat)
    requires PCIE_ANALOG_PTR <= n <= FW_PTR
    ensures Sized(POINTED) && SectionsSum(POINTED, n) == 0
  {
    if n > PCIE_ANALOG_PTR {
      PointedSections(n - 1);
      assert !Active(POINTED, n - 1);
    }
  }

  /** An update of this image turns the checksum into the length of a section that leaves the EEPROM:
      what validation then sums up are words that are not there. */
  lemma PointerToChecksumBreaksUpdate()
    ensures InRange(POINTED) && !Plain(POINTED, CHECKSUM_WORD)
    ensures !InRange(POINTED[CHECKSUM_WORD := Checksum(POINTED)])
  {
    PointedSum();
    assert !Active(POINTED, 3);
    hide Checksum;
    var after := POINTED[CHECKSUM_WORD := Checksum(POINTED)];
    assert after[3] == 0x3F && after[0x3F] == 0xBA7B;
    assert Active(after, 3);
  }

  // ----- a section that never ends -----

  /** The 16-bit counter of the inner loop after `k` steps. */
  function Counter(pointer: U16, k: nat): U16 {
    (pointer + 1 + k) % 65536
  }

  /** The loop test holds after every number of steps, so that the loop never ends, if and only if
      the section ends at word 65535 or later. */
  lemma SectionNeverEndsIff(pointer: U16, length: U16)
    ensures (forall k: nat :: Counter(pointer, k) <= pointer + length) <==> pointer + length >= 65535
  {
    if pointer + length < 65535 {
      assert Counter(pointer, length) == pointer + length + 1;
    }
  }
}
