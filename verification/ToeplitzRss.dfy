/**
 Receive-side scaling: the Toeplitz hash of a connection's addresses and ports, computed
 with a sliding window over the key, and the queue a flow lands on.
 */
module ToeplitzRss {
  import opened Bits

  const CACHE_LEN: nat := 96
  const KEY_BYTES: nat := 40
  /** The key in use: forty bytes 0x05. */
  const KEY: seq<Word> := seq(KEY_BYTES, _ => {0, 2})

  ghost predicate IsKey(key: seq<Word>) {
    |key| == KEY_BYTES && forall i | 0 <= i < KEY_BYTES :: Fits(key[i], 8)
  }

  // ----- the definition -----

  /** Key bits are numbered from the most significant bit of the first byte. */
  predicate KeyBit(key: seq<Word>, n: nat)
    requires n < 8 * |key|
  {
    7 - n % 8 in key[n / 8]
  }

  /** The 32 key bits from position `i` on, as a word. */
  function Window(key: seq<Word>, i: nat): (w: Word)
    requires i + 32 <= 8 * |key|
    ensures forall p: nat :: p in w <==> p < 32 && WindowBit(key, i, p)
  {
    set p: nat | p < 32 && WindowBit(key, i, p)
  }

  predicate WindowBit(key: seq<Word>, i: nat, p: nat)
    requires i + 32 <= 8 * |key| && p < 32
  {
    KeyBit(key, i + (31 - p))
  }

  /** The XOR of the windows at the set input bits in lo..hi. */
  function Toeplitz(key: seq<Word>, bits: seq<bool>, lo: nat, hi: nat): Word
    requires lo <= hi <= |bits| && hi + 32 <= 8 * |key| + 1
  {
    if lo == hi then {}
    else Xor(Toeplitz(key, bits, lo, hi - 1), if bits[hi - 1] then Window(key, hi - 1) else {})
  }

  /** Source address, destination address, source port, destination port. */
  function Input(sip: Word, dip: Word, sp: Word, dp: Word): (r: seq<bool>)
    ensures |r| == CACHE_LEN
  {
    BitsOf(sip, 32) + BitsOf(dip, 32) + BitsOf(sp, 16) + BitsOf(dp, 16)
  }

  function Hash(key: seq<Word>, bits: seq<bool>): Word
    requires |key| == KEY_BYTES && |bits| == CACHE_LEN
  {
    Toeplitz(key, bits, 0, CACHE_LEN)
  }

  // ----- the code -----

  lemma FirstWindow(key: seq<Word>)
    requires IsKey(key)
    ensures Shl(key[0], 24, 32) + Shl(key[1], 16, 32) + Shl(key[2], 8, 32) + key[3] == Window(key, 0)
  {
    var r := Shl(key[0], 24, 32) + Shl(key[1], 16, 32) + Shl(key[2], 8, 32) + key[3];
    forall p: nat | p < 32 ensures p in r <==> WindowBit(key, 0, p) {
      var n := 31 - p;
      assert 7 - n % 8 == p - 8 * (3 - n / 8);
    }
  }

  lemma NextWindow(key: seq<Word>, i: nat)
    requires IsKey(key) && i + 33 <= 320
    ensures Window(key, i + 1) == Shl(Window(key, i), 1, 32) + (if KeyBit(key, i + 32) then {0} else {})
  {
    var next := Shl(Window(key, i), 1, 32) + (if KeyBit(key, i + 32) then {0} else {});
    forall p: nat | p < 32 ensures WindowBit(key, i + 1, p) <==> p in next {
      if p > 0 {
        assert i + 1 + (31 - p) == i + (31 - (p - 1));
      }
    }
  }

  /** The sliding cache holds the key windows. */
  method BuildKeyCache(key: seq<Word>, cache: array<Word>)
    requires IsKey(key) && cache.Length + 32 <= 320
    modifies cache
    ensures forall i | 0 <= i < cache.Length :: cache[i] == Window(key, i)
  {
    hide Window, KeyBit;
    FirstWindow(key);
    var result := Shl(key[0], 24, 32) + Shl(key[1], 16, 32) + Shl(key[2], 8, 32) + key[3];
    var idx := 32;
    for i := 0 to cache.Length
      invariant idx == 32 + i && result == Window(key, i)
      invariant forall j | 0 <= j < i :: cache[j] == Window(key, j)
    {
      var shift := idx % 8;
      cache[i] := result;
      var bit := if 7 in Shl(key[idx / 8], shift, 32) then {0} else {};
      ShiftTest(key, idx);
      if i + 33 <= 320 { NextWindow(key, i); }
      result := Shl(result, 1, 32) + bit;
      idx := idx + 1;
    }
  }

  lemma ShiftTest(key: seq<Word>, n: nat)
    requires n < 8 * |key|
    ensures 7 in Shl(key[n / 8], n % 8, 32) <==> KeyBit(key, n)
  {
  }

  lemma ShlNone(x: Word, width: nat)
    requires Fits(x, width)
    ensures Shl(x, 0, width) == x
  {
  }

  lemma ShlMore(x: Word, i: nat, width: nat)
    requires i < width
    ensures Shl(Shl(x, i, width), 1, width) == Shl(x, i + 1, width)
    ensures width - 1 in Shl(x, i, width) <==> width - 1 - i in x
  {
  }

  lemma ToeplitzStep(key: seq<Word>, bits: seq<bool>, lo: nat, hi: nat)
    requires |key| == KEY_BYTES && |bits| == CACHE_LEN && lo < hi <= CACHE_LEN
    ensures Toeplitz(key, bits, lo, hi) ==
            Xor(Toeplitz(key, bits, lo, hi - 1), if bits[hi - 1] then Window(key, hi - 1) else {})
  {
  }

  lemma XorNone(x: Word)
    ensures Xor(x, {}) == x
  {
  }

  lemma FieldBit(bits: seq<bool>, base: nat, field: Word, width: nat, i: nat)
    requires i < width && base + width <= |bits| && bits[base..base + width] == BitsOf(field, width)
    ensures bits[base + i] <==> width - 1 - i in field
  {
    assert bits[base + i] == bits[base..base + width][i];
  }

  /** One of the four loops over an address or a port: the top bit is tested and the value
      shifted left. */
  method HashField(ghost key: seq<Word>, ghost bits: seq<bool>, cache: array<Word>,
                   res: Word, field: Word, width: nat, base: nat) returns (r: Word)
    requires IsKey(key) && |key| == KEY_BYTES && |bits| == CACHE_LEN == cache.Length && base + width <= CACHE_LEN && width > 0
    requires forall i | 0 <= i < CACHE_LEN :: cache[i] == Window(key, i)
    requires Fits(field, width) && bits[base..base + width] == BitsOf(field, width)
    requires res == Toeplitz(key, bits, 0, base)
    ensures r == Toeplitz(key, bits, 0, base + width)
  {
    hide Window, WindowBit, KeyBit, Shl, Xor, Toeplitz, BitsOf, IsKey, Fits;
    r := res;
    var x := field;
    ShlNone(field, width);
    for i := 0 to width
      invariant x == Shl(field, i, width)
      invariant r == Toeplitz(key, bits, 0, base + i)
    {
      FieldBit(bits, base, field, width, i);
      ToeplitzStep(key, bits, 0, base + i + 1);
      XorNone(r);
      ShlMore(field, i, width);
      if width - 1 in x {
        r := Xor(r, cache[base + i]);
      }
      x := Shl(x, 1, width);
    }
  }

  /** The hash function with the table it fills on first use. */
  class Hasher {
    const key: seq<Word>
    var first: bool
    const cache: array<Word>

    ghost predicate Valid()
      reads this, cache
    {
      && IsKey(key) && cache.Length == CACHE_LEN
      && (!first ==> forall i | 0 <= i < CACHE_LEN :: cache[i] == Window(key, i))
    }

    constructor (key: seq<Word>)
      requires IsKey(key)
      ensures Valid() && fresh(cache) && this.key == key
    {
      this.key := key;
      first := true;
      cache := new Word[CACHE_LEN](_ => {});
    }

    method GetRSSHash(sip: Word, dip: Word, sp: Word, dp: Word) returns (res: Word)
      requires Valid() && Fits(sip, 32) && Fits(dip, 32) && Fits(sp, 16) && Fits(dp, 16)
      modifies this, cache
      ensures Valid() && !first && res == Hash(key, Input(sip, dip, sp, dp))
    {
      hide Window, Toeplitz;
      if first {
        BuildKeyCache(key, cache);
        first := false;
      }
      ghost var bits := Input(sip, dip, sp, dp);
      InputFields(sip, dip, sp, dp);
      NothingHashed(key, bits);
      res := HashField(key, bits, cache, {}, sip, 32, 0);
      res := HashField(key, bits, cache, res, dip, 32, 32);
      res := HashField(key, bits, cache, res, sp, 16, 64);
      res := HashField(key, bits, cache, res, dp, 16, 80);
    }

    /** GetRSSCPUCore. */
    method GetRSSCPUCore(sip: Word, dip: Word, sp: Word, dp: Word, numQueues: nat) returns (core: nat)
      requires Valid() && Fits(sip, 32) && Fits(dip, 32) && Fits(sp, 16) && Fits(dp, 16) && numQueues > 0
      modifies this, cache
      ensures Valid() && core == Queue(Hash(key, Input(sip, dip, sp, dp)), numQueues)
    {
      hide Hash, Input, Remap, Fits, Hasher.Valid;
      var hash := GetRSSHash(sip, dip, sp, dp);
      assert Pow2(7) == 128;
      RemapByOffset(Num(hash, 7));
      var masked := Num(hash, 7);
      // off[] holds 3, 1, -1, -3 as uint32_t
      var off := [3, 1, 0x1_0000_0000 - 1, 0x1_0000_0000 - 3];
      masked := (masked + off[masked % 4]) % 0x1_0000_0000;
      core := masked % numQueues;
    }
  }

  lemma InputFields(sip: Word, dip: Word, sp: Word, dp: Word)
    ensures var bits := Input(sip, dip, sp, dp);
      && bits[0..32] == BitsOf(sip, 32) && bits[32..64] == BitsOf(dip, 32)
      && bits[64..80] == BitsOf(sp, 16) && bits[80..96] == BitsOf(dp, 16)
  {
  }

  lemma NothingHashed(key: seq<Word>, bits: seq<bool>)
    requires |key| == KEY_BYTES
    ensures Toeplitz(key, bits, 0, 0) == {}
  {
  }

  /** The redirection table lists the queues of each group of four in reverse order. */
  function Remap(m: nat): (r: nat) {
    4 * (m / 4) + (3 - m % 4)
  }

  lemma RemapByOffset(m: nat)
    requires m < 128
    ensures (m + [3, 1, 0x1_0000_0000 - 1, 0x1_0000_0000 - 3][m % 4]) % 0x1_0000_0000 == Remap(m)
  {
  }

  function Queue(hash: Word, numQueues: nat): nat
    requires numQueues > 0
  {
    Remap(Num(hash, 7)) % numQueues
  }

  function BitAt(hash: Word, b: nat, weight: nat): nat {
    if b in hash then weight else 0
  }

  lemma LowSeven(hash: Word)
    ensures Num(hash, 7) == BitAt(hash, 0, 1) + BitAt(hash, 1, 2) + BitAt(hash, 2, 4) + BitAt(hash, 3, 8)
                          + BitAt(hash, 4, 16) + BitAt(hash, 5, 32) + BitAt(hash, 6, 64)
  {
    assert Num(hash, 2) == BitAt(hash, 0, 1) + BitAt(hash, 1, 2);
    assert Num(hash, 4) == Num(hash, 2) + BitAt(hash, 2, 4) + BitAt(hash, 3, 8);
    assert Num(hash, 6) == Num(hash, 4) + BitAt(hash, 4, 16) + BitAt(hash, 5, 32);
  }

  /** The queue is that of the low seven bits of the hash, with each group of four reversed. */
  lemma QueueOfLowBits(hash: Word, m: nat, numQueues: nat)
    requires numQueues > 0
    requires m == BitAt(hash, 0, 1) + BitAt(hash, 1, 2) + BitAt(hash, 2, 4) + BitAt(hash, 3, 8)
                + BitAt(hash, 4, 16) + BitAt(hash, 5, 32) + BitAt(hash, 6, 64)
    ensures Queue(hash, numQueues) == (4 * (m / 4) + 3 - m % 4) % numQueues
  {
    hide Num, BitAt;
    LowSeven(hash);
  }

  // ----- what follows -----

  lemma {:induction false} Linear(key: seq<Word>, bits: seq<bool>, bits': seq<bool>, both: seq<bool>, lo: nat, hi: nat)
    requires |key| == KEY_BYTES && |bits| == |bits'| == |both| == CACHE_LEN && lo <= hi <= CACHE_LEN
    requires forall i | 0 <= i < CACHE_LEN :: both[i] == (bits[i] != bits'[i])
    ensures Toeplitz(key, both, lo, hi) == Xor(Toeplitz(key, bits, lo, hi), Toeplitz(key, bits', lo, hi))
  {
    hide Window;
    if lo < hi {
      Linear(key, bits, bits', both, lo, hi - 1);
    }
  }

  lemma {:induction false} Split(key: seq<Word>, bits: seq<bool>, lo: nat, mid: nat, hi: nat)
    requires |key| == KEY_BYTES && |bits| == CACHE_LEN && lo <= mid <= hi <= CACHE_LEN
    ensures Toeplitz(key, bits, lo, hi) == Xor(Toeplitz(key, bits, lo, mid), Toeplitz(key, bits, mid, hi))
  {
    hide Window;
    if mid < hi {
      Split(key, bits, lo, mid, hi - 1);
    }
  }

  /** The key repeats every sixteen bits. */
  ghost predicate Period16(key: seq<Word>) {
    forall n: nat | n + 16 < 8 * |key| :: KeyBit(key, n) == KeyBit(key, n + 16)
  }

  lemma WindowRepeats(key: seq<Word>, i: nat)
    requires IsKey(key) && Period16(key) && i + 64 <= 320
    ensures Window(key, i) == Window(key, i + 16) == Window(key, i + 32)
  {
    forall p: nat | p < 32
      ensures WindowBit(key, i, p) == WindowBit(key, i + 16, p) == WindowBit(key, i + 32, p)
    {
      assert KeyBit(key, i + (31 - p)) == KeyBit(key, i + (31 - p) + 16);
      assert KeyBit(key, i + 16 + (31 - p)) == KeyBit(key, i + 16 + (31 - p) + 16);
    }
  }

  lemma SameBitsStep(x: seq<bool>, a: nat, y: seq<bool>, b: nat, n: nat)
    requires a + n < |x| && b + n < |y| && x[a..a + n + 1] == y[b..b + n + 1]
    ensures x[a..a + n] == y[b..b + n] && x[a + n] == y[b + n]
  {
    var u, v := x[a..a + n + 1], y[b..b + n + 1];
    assert x[a + n] == u[n] && y[b + n] == v[n];
    assert x[a..a + n] == u[..n];
    assert y[b..b + n] == v[..n];
  }

  /** The same field a multiple of the period apart contributes equally. */
  lemma {:induction false} ShiftedField(key: seq<Word>, x: seq<bool>, a: nat, y: seq<bool>, b: nat, n: nat)
    requires |key| == KEY_BYTES && IsKey(key) && Period16(key) && |x| == |y| == CACHE_LEN
    requires b == a + 16 || b == a + 32
    requires a + n <= CACHE_LEN && b + n <= CACHE_LEN
    requires x[a..a + n] == y[b..b + n]
    ensures Toeplitz(key, x, a, a + n) == Toeplitz(key, y, b, b + n)
  {
    hide Window, WindowBit, KeyBit, Xor, Period16, IsKey;
    if n > 0 {
      hide Toeplitz;
      SameBitsStep(x, a, y, b, n - 1);
      ShiftedField(key, x, a, y, b, n - 1);
      WindowRepeats(key, a + n - 1);
      ToeplitzStep(key, x, a, a + n);
      ToeplitzStep(key, y, b, b + n);
    }
  }

  /** The reverse direction of a flow has the same hash, for every key of period sixteen. */
  lemma HashIsSymmetric(key: seq<Word>, sip: Word, dip: Word, sp: Word, dp: Word)
    requires IsKey(key) && Period16(key)
    ensures Hash(key, Input(sip, dip, sp, dp)) == Hash(key, Input(dip, sip, dp, sp))
  {
    hide Toeplitz, Period16;
    var x, y := Input(sip, dip, sp, dp), Input(dip, sip, dp, sp);
    InputFields(sip, dip, sp, dp);
    InputFields(dip, sip, dp, sp);
    ShiftedField(key, x, 0, y, 32, 32);
    ShiftedField(key, y, 0, x, 32, 32);
    ShiftedField(key, x, 64, y, 80, 16);
    ShiftedField(key, y, 64, x, 80, 16);
    Quarters(key, x);
    Quarters(key, y);
    XorSwaps(Toeplitz(key, x, 0, 32), Toeplitz(key, x, 32, 64), Toeplitz(key, x, 64, 80), Toeplitz(key, x, 80, 96));
  }

  lemma Quarters(key: seq<Word>, bits: seq<bool>)
    requires |key| == KEY_BYTES && |bits| == CACHE_LEN
    ensures Hash(key, bits) == Xor(Xor(Toeplitz(key, bits, 0, 32), Toeplitz(key, bits, 32, 64)),
                                   Xor(Toeplitz(key, bits, 64, 80), Toeplitz(key, bits, 80, 96)))
  {
    hide Toeplitz, Xor;
    Split(key, bits, 0, 64, 96);
    Split(key, bits, 0, 32, 64);
    Split(key, bits, 64, 80, 96);
  }

  lemma XorSwaps(a: Word, b: Word, c: Word, d: Word)
    ensures Xor(Xor(a, b), Xor(c, d)) == Xor(Xor(b, a), Xor(d, c))
  {
  }

  lemma KeyHasPeriod16()
    ensures IsKey(KEY) && Period16(KEY)
  {
  }

  lemma RemapIsInvolution(m: nat)
    requires m < 128
    ensures Remap(m) < 128 && Remap(Remap(m)) == m && Remap(m) / 4 == m / 4
  {
  }

  /** Both directions of a flow land on the same existing queue. */
  lemma SameQueueBothWays(sip: Word, dip: Word, sp: Word, dp: Word, numQueues: nat)
    requires numQueues > 0
    ensures var q := Queue(Hash(KEY, Input(sip, dip, sp, dp)), numQueues);
      q < numQueues && q == Queue(Hash(KEY, Input(dip, sip, dp, sp)), numQueues)
  {
    hide Hash, Remap;
    KeyHasPeriod16();
    HashIsSymmetric(KEY, sip, dip, sp, dp);
  }
}
