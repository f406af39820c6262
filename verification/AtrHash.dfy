/**
 The Flow Director signature hash: the bit-level formula the hardware uses, and the
 byte-shuffling code that computes it in software on a little-endian host.
 */
module AtrHash {
  import opened Bits

  const STREAM_BYTES: nat := 42
  const KEY_BITS: nat := 351

  // ----- the formula -----

  ghost predicate Bytes(stream: seq<Word>) {
    |stream| == STREAM_BYTES && forall m | 0 <= m < STREAM_BYTES :: Fits(stream[m], 8)
  }

  /** Stream[335:0]: the first byte of the stream holds the most significant bits. */
  predicate StreamBit(stream: seq<Word>, n: nat)
    requires |stream| == STREAM_BYTES && n < 336
  {
    n % 8 in stream[41 - n / 8]
  }

  /** int_stream[365:0] = Stream[14:0] | Stream[335:0] | Stream[335:321]. */
  predicate IntStream(stream: seq<Word>, n: nat)
    requires |stream| == STREAM_BYTES && n < 366
  {
    if n < 15 then StreamBit(stream, n + 321)
    else if n < 351 then StreamBit(stream, n - 15)
    else StreamBit(stream, n - 351)
  }

  /** int_key[350:0] = tmp_key[351:1], where tmp_key is the key repeated eleven times. */
  predicate IntKey(key: Word, k: nat) {
    (k + 1) % 32 in key
  }

  /** Bit `b` of the XOR of int_stream[k+15:k] over the first `n` positions k with int_key[k] set. */
  predicate HashBit(stream: seq<Word>, key: Word, b: nat, n: nat)
    requires |stream| == STREAM_BYTES && b < 16 && n <= KEY_BITS
  {
    n > 0 && HashBit(stream, key, b, n - 1) != (IntKey(key, n - 1) && IntStream(stream, n - 1 + b))
  }

  function Formula(stream: seq<Word>, key: Word): Word
    requires |stream| == STREAM_BYTES
  {
    set b | 0 <= b < 16 && HashBit(stream, key, b, KEY_BITS)
  }

  /** The key with its four bytes in reverse order. */
  function SwapBytes(key: Word): (r: Word)
    requires Fits(key, 32)
    ensures Fits(r, 32) && forall i: nat | i < 32 :: i in r <==> SwappedIn(key, i)
  {
    set i | 0 <= i < 32 && SwappedIn(key, i)
  }

  predicate SwappedIn(key: Word, i: nat)
    requires i < 32
  {
    8 * (3 - i / 8) + i % 8 in key
  }

  // ----- the code -----

  /** Byte `m` of the repeated key as a little-endian host lays it out in memory. */
  ghost predicate KeyStreamByte(key: Word, m: nat, byte: Word) {
    Fits(byte, 8) && forall n: nat | n < 8 :: n in byte <==> 8 * (m % 4) + n in key
  }

  /** Byte `j` of int_key; its most significant bit at j = 0 is unused. */
  ghost predicate IntKeyByte(key: Word, j: nat, byte: Word)
    requires Fits(key, 32) && j < 44
  {
    forall h: nat | h < 8 && 8 * (43 - j) + h < KEY_BITS ::
      h in byte <==> IntKey(SwapBytes(key), 8 * (43 - j) + h)
  }

  /** Byte `i` of int_stream; the two most significant bits at i = 0 are unused. */
  ghost predicate HashStrByte(stream: seq<Word>, i: nat, byte: Word)
    requires |stream| == STREAM_BYTES && i < 46
  {
    && Fits(byte, 8)
    && forall h: nat | h < 8 && 8 * (45 - i) + h < 366 ::
         h in byte <==> IntStream(stream, 8 * (45 - i) + h)
  }

  lemma FillByte(key: Word, i: nat, b: nat)
    requires Fits(key, 32) && b < 8
    ensures KeyStreamByte(key, 8 * i + b, Shr(Shl(key, 32, 64) + key, 8 * b) * LOW_BYTE)
  {
    var fillkey := Shl(key, 32, 64) + key;
    assert (8 * i + b) % 4 == if b < 4 then b else b - 4;
    forall n: nat | n < 8
      ensures n in Shr(fillkey, 8 * b) * LOW_BYTE <==> 8 * ((8 * i + b) % 4) + n in key
    {
      assert n in LOW_BYTE;
      assert n in Shr(fillkey, 8 * b) <==> n + 8 * b in fillkey;
    }
  }

  lemma Mod32(a: nat, k: nat, r: nat)
    requires a == 32 * k + r && r < 32
    ensures a % 32 == r
  {
  }

  /** The same within the four bytes of one copy of the key. */
  lemma IndexInWord(r: nat, h: nat, i: nat)
    requires r < 4 && h < 8 && i == if r == 0 && h == 7 then 0 else 8 * (3 - r) + h + 1
    ensures 8 * (3 - i / 8) + i % 8 == if h < 7 then 8 * r + (h + 1) else if r == 0 then 24 else 8 * (r - 1)
  {
  }

  /** Where bit `h` of byte `j` of the shifted key comes from. */
  lemma KeyIndex(j: nat, h: nat)
    requires j < 44 && h < 8 && (h < 7 || j > 0)
    ensures var i := (8 * (43 - j) + h + 1) % 32;
      8 * (3 - i / 8) + i % 8 == if h < 7 then 8 * (j % 4) + (h + 1) else 8 * ((j - 1) % 4)
  {
    var q, r := j / 4, j % 4;
    var i := if r == 0 && h == 7 then 0 else 8 * (3 - r) + h + 1;
    Mod32(8 * (43 - j) + h + 1, if r == 0 && h == 7 then 11 - q else 10 - q, i);
    IndexInWord(r, h, i);
  }

  lemma IntKeyAt(key: Word, k: nat, at: nat)
    requires Fits(key, 32) && var i := (k + 1) % 32; at == 8 * (3 - i / 8) + i % 8
    ensures IntKey(SwapBytes(key), k) <==> at in key
  {
  }

  lemma ShiftedKeyByte(key: Word, j: nat, prev: Word, cur: Word, byte: Word)
    requires Fits(key, 32) && j < 44 && KeyStreamByte(key, j, cur)
    requires j > 0 ==> KeyStreamByte(key, j - 1, prev)
    requires byte == (if j == 0 then {} else Shl(prev, 7, 8)) + Shr(cur, 1)
    ensures IntKeyByte(key, j, byte)
  {
    hide IntKey, SwapBytes, SwappedIn, KeyStreamByte, Shl, Shr, Fits;
    forall h: nat | h < 8 && 8 * (43 - j) + h < KEY_BITS
      ensures h in byte <==> IntKey(SwapBytes(key), 8 * (43 - j) + h)
    {
      ShiftedKeyBit(key, j, h, prev, cur, byte);
    }
  }

  lemma ShiftedKeyBit(key: Word, j: nat, h: nat, prev: Word, cur: Word, byte: Word)
    requires Fits(key, 32) && j < 44 && h < 8 && (h < 7 || j > 0) && KeyStreamByte(key, j, cur)
    requires j > 0 ==> KeyStreamByte(key, j - 1, prev)
    requires byte == (if j == 0 then {} else Shl(prev, 7, 8)) + Shr(cur, 1)
    ensures h in byte <==> IntKey(SwapBytes(key), 8 * (43 - j) + h)
  {
    hide IntKey, SwapBytes, SwappedIn, KeyStreamByte, Shl, Shr, Fits;
    var at := if h < 7 then 8 * (j % 4) + (h + 1) else 8 * ((j - 1) % 4);
    KeyIndex(j, h);
    IntKeyAt(key, 8 * (43 - j) + h, at);
    ShiftedBit(key, j, h, prev, cur, byte, at);
  }

  lemma ShiftedBit(key: Word, j: nat, h: nat, prev: Word, cur: Word, byte: Word, at: nat)
    requires h < 8 && (h < 7 || j > 0) && KeyStreamByte(key, j, cur)
    requires j > 0 ==> KeyStreamByte(key, j - 1, prev)
    requires byte == (if j == 0 then {} else Shl(prev, 7, 8)) + Shr(cur, 1)
    requires at == if h < 7 then 8 * (j % 4) + (h + 1) else 8 * ((j - 1) % 4)
    ensures h in byte <==> at in key
  {
    hide KeyStreamByte;
    if h < 7 {
      assert h in byte <==> h + 1 in cur;
      StreamByteAt(key, j, cur, h + 1, at);
    } else {
      StreamByteFits(key, j, cur);
      assert h in byte <==> 0 in prev;
      StreamByteAt(key, j - 1, prev, 0, at);
    }
  }

  lemma StreamByteAt(key: Word, m: nat, byte: Word, n: nat, at: nat)
    requires KeyStreamByte(key, m, byte) && n < 8 && at == 8 * (m % 4) + n
    ensures n in byte <==> at in key
  {
  }

  lemma StreamByteFits(key: Word, m: nat, byte: Word)
    requires KeyStreamByte(key, m, byte)
    ensures Fits(byte, 8)
  {
  }

  /** The byte of the stream reached after `i` steps from byte 39, around the end. */
  function Around(i: nat): (j: nat)
    ensures j < STREAM_BYTES
  {
    (i + 39) % 42
  }

  lemma AroundNext(i: nat)
    ensures Around(i + 1) == if Around(i) + 1 > 41 then 0 else Around(i) + 1
  {
  }

  lemma ShiftedStringByte(stream: seq<Word>, i: nat, byte: Word)
    requires Bytes(stream) && i < 46
    requires byte == if i == 0 then Shr(stream[40] - {7}, 1)
                     else Shl(stream[Around(i)], 7, 8) + Shr(stream[Around(i + 1)], 1)
    ensures HashStrByte(stream, i, byte)
  {
    hide IntStream;
    forall h: nat | h < 8 && 8 * (45 - i) + h < 366
      ensures h in byte <==> IntStream(stream, 8 * (45 - i) + h)
    {
      IntStreamAt(stream, i, h);
      if h < 7 {
        assert h in byte <==> h + 1 in stream[Around(i + 1)];
      } else {
        assert h in byte <==> 0 in stream[Around(i)];
      }
    }
  }

  /** Where bit `h` of byte `i` of the shifted stream comes from. */
  lemma IntStreamAt(stream: seq<Word>, i: nat, h: nat)
    requires |stream| == STREAM_BYTES && i < 46 && h < 8 && 8 * (45 - i) + h < 366
    ensures IntStream(stream, 8 * (45 - i) + h) <==>
      if h < 7 then h + 1 in stream[Around(i + 1)] else 0 in stream[Around(i)]
  {
    var n := 8 * (45 - i) + h;
    var m := if n < 15 then n + 321 else if n < 351 then n - 15 else n - 351;
    StreamIndex(i, h, m);
  }

  /** The byte and bit of position `m` of the stream. */
  lemma StreamIndex(i: nat, h: nat, m: nat)
    requires i < 46 && h < 8
    requires var n := 8 * (45 - i) + h; n < 366 && m == if n < 15 then n + 321 else if n < 351 then n - 15 else n - 351
    ensures if h < 7 then m % 8 == h + 1 && 41 - m / 8 == Around(i + 1) else m % 8 == 0 && 41 - m / 8 == Around(i)
  {
    var wrapped := if i <= 1 then i + 40 else i - 2;
    assert (i + 40) % 42 == if i == 44 || i == 45 then i - 44 else wrapped;
  }

  method FillKey(key: Word) returns (ks: array<Word>)
    requires Fits(key, 32)
    ensures fresh(ks) && ks.Length == 48 && forall m | 0 <= m < 48 :: KeyStreamByte(key, m, ks[m])
  {
    hide KeyStreamByte, Shl, Shr;
    ks := new Word[48](_ => {});
    for i := 0 to 6
      invariant forall m | 0 <= m < 8 * i :: KeyStreamByte(key, m, ks[m])
    {
      var fillkey := Shl(key, 32, 64) + key;
      // storing a 64-bit word writes its least significant byte first
      for b := 0 to 8
        invariant forall m | 0 <= m < 8 * i + b :: KeyStreamByte(key, m, ks[m])
      {
        FillByte(key, i, b);
        ks[8 * i + b] := Shr(fillkey, 8 * b) * LOW_BYTE;
      }
    }
  }

  method ShiftKey(ks: array<Word>, ghost key: Word) returns (ik: array<Word>)
    requires Fits(key, 32) && ks.Length == 48 && forall m | 0 <= m < 48 :: KeyStreamByte(key, m, ks[m])
    ensures fresh(ik) && ik.Length == 44 && forall j | 0 <= j < 44 :: IntKeyByte(key, j, ik[j])
  {
    hide KeyStreamByte, IntKeyByte, Shl, Shr;
    ik := new Word[44](_ => {});
    assert {} + Shr(ks[0], 1) == Shr(ks[0], 1);
    ShiftedKeyByte(key, 0, {}, ks[0], Shr(ks[0], 1));
    ik[0] := Shr(ks[0], 1);
    var j := 0;
    for i := 1 to 44
      invariant j == i - 1
      invariant forall m | 0 <= m < i :: IntKeyByte(key, m, ik[m])
    {
      var thisKey := Shl(ks[j], 7, 8);
      j := j + 1;
      ShiftedKeyByte(key, i, ks[i - 1], ks[i], thisKey + Shr(ks[j], 1));
      ik[i] := thisKey + Shr(ks[j], 1);
    }
  }

  method ShiftStream(stream: seq<Word>) returns (hs: array<Word>)
    requires Bytes(stream)
    ensures fresh(hs) && hs.Length == 46 && forall i | 0 <= i < 46 :: HashStrByte(stream, i, hs[i])
  {
    assert Around(1) == 40;
    hide HashStrByte, Shl, Shr, Around;
    hs := new Word[46](_ => {});
    ShiftedStringByte(stream, 0, Shr(stream[40] - {7}, 1));
    hs[0] := Shr(stream[40] - {7}, 1);
    var j := 40;
    for i := 1 to 46
      invariant j == Around(i)
      invariant forall m | 0 <= m < i :: HashStrByte(stream, m, hs[m])
    {
      var thisStr := Shl(stream[j], 7, 8);
      AroundNext(i);
      j := j + 1;
      if j > 41 { j := 0; }
      ShiftedStringByte(stream, i, thisStr + Shr(stream[j], 1));
      hs[i] := thisStr + Shr(stream[j], 1);
    }
  }

  /** `x & ((1 << h) - 1)`. */
  function LowBits(x: Word, h: nat): (r: Word)
    ensures forall n: nat :: n in r <==> n in x && n < h
  {
    set n: nat | n in x && n < h
  }

  function Window(hi: Word, mid: Word, lo: Word, h: nat): Word
    requires h < 8
  {
    (Shr(lo, h) + Shl(mid, 8 - h, 32) + Shl(LowBits(hi, h), 16 - h, 32)) * LOW_16
  }

  lemma WindowBit(stream: seq<Word>, i: nat, h: nat, hi: Word, mid: Word, lo: Word, b: nat)
    requires |stream| == STREAM_BYTES && 2 <= i < 46 && h < 8 && 8 * (45 - i) + h < KEY_BITS && b < 16
    requires HashStrByte(stream, i, lo) && HashStrByte(stream, i - 1, mid) && HashStrByte(stream, i - 2, hi)
    ensures b in Window(hi, mid, lo, h) <==> IntStream(stream, 8 * (45 - i) + h + b)
  {
    hide IntStream;
    assert b in LOW_16;
    var k := 8 * (45 - i) + h + b;
    if b + h < 8 {
      assert b in Window(hi, mid, lo, h) <==> b + h in lo;
    } else if b + h < 16 {
      assert b in Window(hi, mid, lo, h) <==> b + h - 8 in mid;
      assert k == 8 * (45 - (i - 1)) + (b + h - 8);
    } else {
      assert b in Window(hi, mid, lo, h) <==> b + h - 16 in hi;
      assert k == 8 * (45 - (i - 2)) + (b + h - 16);
    }
  }

  /** The value XORed in at byte `i`, bit `h` is int_stream[k+15:k] for that position k. */
  lemma WindowBits(stream: seq<Word>, i: nat, h: nat, hi: Word, mid: Word, lo: Word)
    requires |stream| == STREAM_BYTES && 2 <= i < 46 && h < 8 && 8 * (45 - i) + h < KEY_BITS
    requires HashStrByte(stream, i, lo) && HashStrByte(stream, i - 1, mid) && HashStrByte(stream, i - 2, hi)
    ensures forall b: nat :: b in Window(hi, mid, lo, h) <==> b < 16 && IntStream(stream, 8 * (45 - i) + h + b)
  {
    hide HashStrByte, IntStream;
    forall b: nat | b < 16 ensures b in Window(hi, mid, lo, h) <==> IntStream(stream, 8 * (45 - i) + h + b) {
      WindowBit(stream, i, h, hi, mid, lo, b);
    }
  }

  /** The software hash is the formula, for the key with its bytes in memory order reversed. */
  method ComputeHash(stream: seq<Word>, key: Word) returns (hash: Word)
    requires Bytes(stream) && Fits(key, 32)
    ensures hash == Formula(stream, SwapBytes(key))
  {
    hide HashStrByte, IntKeyByte, KeyStreamByte, IntStream, IntKey, Window;
    var ks := FillKey(key);
    var ik := ShiftKey(ks, key);
    var hs := ShiftStream(stream);
    hash := {};
    ghost var key' := SwapBytes(key);
    var i, j, k := 45, 43, 0;
    while k < 351 && i >= 2 && j >= 0
      invariant j == i - 2 && 1 <= i <= 45 && k == if i == 1 then KEY_BITS else 8 * (45 - i)
      invariant forall b: nat :: b in hash <==> b < 16 && HashBit(stream, key', b, k)
      decreases i
      modifies {}
    {
      var h := 0;
      while h < 8 && k < 351
        invariant 0 <= h <= 8 && k == 8 * (45 - i) + h <= KEY_BITS
        invariant forall b: nat :: b in hash <==> b < 16 && HashBit(stream, key', b, k)
        decreases 8 - h
        modifies {}
      {
        WindowBits(stream, i, h, hs[i - 2], hs[i - 1], hs[i]);
        KeyBit(key, j, ik[j], h);
        if h in ik[j] {
          hash := Xor(hash, Window(hs[i - 2], hs[i - 1], hs[i], h));
        }
        h, k := h + 1, k + 1;
      }
      i, j := i - 1, j - 1;
    }
  }

  lemma KeyBit(key: Word, j: nat, byte: Word, h: nat)
    requires Fits(key, 32) && j < 44 && h < 8 && 8 * (43 - j) + h < KEY_BITS && IntKeyByte(key, j, byte)
    ensures h in byte <==> IntKey(SwapBytes(key), 8 * (43 - j) + h)
  {
  }

  // ----- what follows -----

  function XorStreams(s: seq<Word>, t: seq<Word>): seq<Word>
    requires |s| == |t|
  {
    seq(|s|, i requires 0 <= i < |s| => Xor(s[i], t[i]))
  }

  lemma {:induction false} HashBitLinear(s: seq<Word>, t: seq<Word>, key: Word, b: nat, n: nat)
    requires |s| == |t| == STREAM_BYTES && b < 16 && n <= KEY_BITS
    ensures HashBit(XorStreams(s, t), key, b, n) == (HashBit(s, key, b, n) != HashBit(t, key, b, n))
  {
    if n > 0 {
      HashBitLinear(s, t, key, b, n - 1);
    }
  }

  /** The hash is linear in the stream. */
  lemma HashIsLinear(s: seq<Word>, t: seq<Word>, key: Word)
    requires |s| == |t| == STREAM_BYTES
    ensures Formula(XorStreams(s, t), key) == Xor(Formula(s, key), Formula(t, key))
  {
    forall b: nat | b < 16
      ensures b in Formula(XorStreams(s, t), key) <==> b in Xor(Formula(s, key), Formula(t, key))
    {
      HashBitLinear(s, t, key, b, KEY_BITS);
    }
  }

  /** The stream whose only one bit is Stream[n]. */
  function OneBit(n: nat): seq<Word>
    requires n < 336
  {
    seq(STREAM_BYTES, m => if m == 41 - n / 8 then {n % 8} else {})
  }

  /** A stream bit stands at one place of int_stream, or at two if it is repeated at an end. */
  lemma StandsAt(n: nat, k: nat)
    requires n < 336 && k < 366
    ensures IntStream(OneBit(n), k) <==> k == n + 15 || k == n - 321 || (n < 15 && k == n + 351)
  {
    hide IntStream, StreamBit;
    var m := if k < 15 then k + 321 else if k < 351 then k - 15 else k - 351;
    assert IntStream(OneBit(n), k) == StreamBit(OneBit(n), m) by { StreamPosition(OneBit(n), k, m); }
    OneBitAt(n, m);
  }

  lemma StreamPosition(stream: seq<Word>, k: nat, m: nat)
    requires |stream| == STREAM_BYTES && k < 366 && m == if k < 15 then k + 321 else if k < 351 then k - 15 else k - 351
    ensures IntStream(stream, k) == StreamBit(stream, m)
  {
  }

  lemma OneBitAt(n: nat, m: nat)
    requires n < 336 && m < 336
    ensures StreamBit(OneBit(n), m) <==> m == n
  {
    assert m == 8 * (m / 8) + m % 8 && n == 8 * (n / 8) + n % 8;
  }

  /** Position `at` of int_stream is under hash bit `b` at a position of int_key below `m` that is set. */
  predicate Meets(key: Word, at: int, b: nat, m: nat) {
    0 <= at - b < m && (at - b + 1) % 32 in key
  }

  predicate OneBitMeets(key: Word, n: nat, b: nat, m: nat) {
    (Meets(key, n + 15, b, m) != Meets(key, n - 321, b, m)) != (n < 15 && Meets(key, n + 351, b, m))
  }

  lemma {:induction false} OneBitHashBit(key: Word, n: nat, b: nat, m: nat)
    requires n < 336 && b < 16 && m <= KEY_BITS
    ensures HashBit(OneBit(n), key, b, m) <==> OneBitMeets(key, n, b, m)
  {
    hide IntStream;
    if m > 0 {
      OneBitHashBit(key, n, b, m - 1);
      StandsAt(n, m - 1 + b);
    }
  }

  /** Which hash bits a single bit of the stream sets, from the bits of the key alone: the one at
      its place in int_stream, and for the first and last fifteen bits the one at their copy. As the
      hash is linear, this says what it is for every stream. */
  lemma HashOfOneBit(key: Word, n: nat, b: nat)
    requires n < 336 && b < 16
    ensures b in Formula(OneBit(n), key) <==>
      (Meets(key, n + 15, b, 351) != Meets(key, n - 321, b, 351)) != (n < 15 && Meets(key, n + 351, b, 351))
  {
    OneBitHashBit(key, n, b, KEY_BITS);
  }

  /** Two keys hash all streams alike only when they are equal. */
  lemma HashDeterminesKey(key: Word, key': Word)
    requires Fits(key, 32) && Fits(key', 32)
    requires forall stream | Bytes(stream) :: Formula(stream, key) == Formula(stream, key')
    ensures key == key'
  {
    forall m: nat | m < 32 ensures m in key <==> m in key' {
      HashOfOneBit(key, 16 + m, 0);
      HashOfOneBit(key', 16 + m, 0);
      assert Bytes(OneBit(16 + m));
      assert 0 in Formula(OneBit(16 + m), key) <==> 0 in Formula(OneBit(16 + m), key');
    }
  }

  /** On a little-endian host the software agrees with the formula for its own key, on all
      streams, exactly when the key reads the same with its bytes reversed. */
  lemma AgreesWithOwnKeyIff(key: Word)
    requires Fits(key, 32)
    ensures (forall stream | Bytes(stream) :: Formula(stream, SwapBytes(key)) == Formula(stream, key))
        <==> SwapBytes(key) == key
  {
    if forall stream | Bytes(stream) :: Formula(stream, SwapBytes(key)) == Formula(stream, key) {
      HashDeterminesKey(SwapBytes(key), key);
    }
  }

  // ----- software and card -----

  /** htonl on a little-endian host. */
  function Htonl(x: Word): Word {
    Shl(LowBits(x, 8), 24, 32) + Shl(LowBits(x, 16) - LowBits(x, 8), 8, 32)
    + (Shr(x, 8) * (LOW_16 - LOW_BYTE)) + Shr(x, 24)
  }

  lemma HtonlSwaps(key: Word)
    requires Fits(key, 32)
    ensures Htonl(key) == SwapBytes(key)
  {
    forall i: nat | i < 32 ensures i in Htonl(key) <==> SwappedIn(key, i) {
      HtonlBit(key, i);
    }
  }

  lemma HtonlBit(key: Word, i: nat)
    requires Fits(key, 32) && i < 32
    ensures i in Htonl(key) <==> SwappedIn(key, i)
  {
    if i < 8 {
    } else if i < 16 {
      assert i in LOW_16 - LOW_BYTE;
    }
  }

  /** The flow director's key registers. */
  class FlowDirector {
    var hashKey: Word
    var signatureKey: Word

    /** The keys as ixgbe_init_fdir_signature_82599 and ixgbe_init_fdir_perfect_82599 write them. */
    method PrimeKeys(bucket: Word, signature: Word)
      requires Fits(bucket, 32) && Fits(signature, 32)
      modifies this
      ensures hashKey == SwapBytes(bucket) && signatureKey == SwapBytes(signature)
    {
      HtonlSwaps(bucket);
      HtonlSwaps(signature);
      hashKey := Htonl(bucket);
      signatureKey := Htonl(signature);
    }

    /** The software computes, from a key, what the card computes from the register primed with it. */
    method HashesAgree(stream: seq<Word>, bucket: Word, signature: Word) returns (b: Word, s: Word)
      requires Bytes(stream) && Fits(bucket, 32) && Fits(signature, 32)
      modifies this
      ensures b == Formula(stream, hashKey) && s == Formula(stream, signatureKey)
    {
      PrimeKeys(bucket, signature);
      b := ComputeHash(stream, bucket);
      s := ComputeHash(stream, signature);
    }
  }

  /** 0xE214AD3D */
  const BUCKET_HASH_KEY: Word := {0, 2, 3, 4, 5, 8, 10, 11, 13, 15, 18, 20, 25, 29, 30, 31}

  lemma SwapMoves(key: Word)
    requires Fits(key, 32) && 25 in key && 1 !in key
    ensures SwapBytes(key) != key
  {
    assert SwappedIn(key, 1);
  }

  lemma OwnKeyFails(key: Word) returns (stream: seq<Word>)
    requires Fits(key, 32) && SwapBytes(key) != key
    ensures Bytes(stream) && Formula(stream, SwapBytes(key)) != Formula(stream, key)
  {
    hide Formula, SwapBytes;
    AgreesWithOwnKeyIff(key);
    stream :| Bytes(stream) && Formula(stream, SwapBytes(key)) != Formula(stream, key);
  }

  /** With the bucket key in use the comment's formula, read with the key as written, is not what the
      code computes: some stream tells them apart. */
  lemma BucketKeyFails() returns (stream: seq<Word>)
    ensures Fits(BUCKET_HASH_KEY, 32) && Bytes(stream)
    ensures Formula(stream, SwapBytes(BUCKET_HASH_KEY)) != Formula(stream, BUCKET_HASH_KEY)
  {
    hide Formula, SwapBytes, Bytes;
    SwapMoves(BUCKET_HASH_KEY);
    stream := OwnKeyFails(BUCKET_HASH_KEY);
  }
}
