/**
 Byte-wise access to the word-addressed EEPROM, as ethtool offers it: reading a range of
 bytes, and writing one by read-modify-write of the words at its ends.
 */
module EepromAccess {
  import opened Common
  import opened EepromImage

  const EINVAL: int := -22
  const EOPNOTSUPP: int := -95
  const EFAULT: int := -14

  /** The image as bytes: words are stored low byte first. */
  function ByteAt(ws: seq<U16>, k: nat): Byte
    requires k < 2 * |ws|
  {
    if k % 2 == 0 then ws[k / 2] % 256 else ws[k / 2] / 256
  }

  function BytesOf(ws: seq<U16>): (r: seq<Byte>)
    ensures |r| == 2 * |ws| && forall k | 0 <= k < |r| :: r[k] == ByteAt(ws, k)
  {
    seq(2 * |ws|, k requires 0 <= k < 2 * |ws| => ByteAt(ws, k))
  }

  function WordsOf(image: seq<Byte>): (ws: seq<U16>)
    ensures |ws| == |image| / 2 && forall i | 0 <= i < |ws| :: ws[i] == Pack(image[2 * i], image[2 * i + 1])
  {
    seq(|image| / 2, i requires 0 <= i < |image| / 2 => Pack(image[2 * i], image[2 * i + 1]))
  }

  function Pack(lo: Byte, hi: Byte): U16 {
    lo + 256 * hi
  }

  lemma BytePair(ws: seq<U16>, i: nat)
    requires i < |ws|
    ensures ByteAt(ws, 2 * i) == ws[i] % 256 && ByteAt(ws, 2 * i + 1) == ws[i] / 256
  {
  }

  lemma PackParts(w: U16)
    ensures Pack(w % 256, w / 256) == w
  {
  }

  /** Words and bytes are two views of the same contents. */
  lemma WordsOfBytes(ws: seq<U16>)
    ensures WordsOf(BytesOf(ws)) == ws
  {
    hide ByteAt, Pack;
    forall i | 0 <= i < |ws| ensures WordsOf(BytesOf(ws))[i] == ws[i] {
      BytePair(ws, i);
      PackParts(ws[i]);
    }
  }

  /** The image with the bytes from `offset` on replaced. */
  function Splice(image: seq<Byte>, offset: nat, data: seq<Byte>): (r: seq<Byte>)
    requires offset + |data| <= |image|
    ensures |r| == |image|
    ensures forall k | 0 <= k < |r| :: r[k] == if offset <= k < offset + |data| then data[k - offset] else image[k]
  {
    image[..offset] + data + image[offset + |data|..]
  }

  /** The same on words. */
  function Spliced(ws: seq<U16>, offset: nat, data: seq<Byte>): (r: seq<U16>)
    requires offset + |data| <= 2 * |ws|
    ensures |r| == |ws|
  {
    WordsOf(Splice(BytesOf(ws), offset, data))
  }

  /** Storing two bytes in a word and reading them back. */
  lemma PackBytes(lo: Byte, hi: Byte)
    ensures Pack(lo, hi) % 256 == lo && Pack(lo, hi) / 256 == hi
  {
  }

  /** The words from `first` up to `n` hold the bytes of `image`, all others those of `before`. */
  ghost predicate WrittenUpTo(ws: seq<U16>, image: seq<Byte>, before: seq<Byte>, first: nat, n: nat) {
    && |image| == |before| == 2 * |ws| && first <= n <= |ws|
    && forall k | 0 <= k < 2 * |ws| :: ByteAt(ws, k) == if 2 * first <= k < 2 * n then image[k] else before[k]
  }

  lemma WriteNext(ws: seq<U16>, image: seq<Byte>, before: seq<Byte>, first: nat, n: nat, w: U16)
    requires WrittenUpTo(ws, image, before, first, n) && n < |ws|
    requires w % 256 == image[2 * n] && w / 256 == image[2 * n + 1]
    ensures WrittenUpTo(ws[n := w], image, before, first, n + 1)
  {
    var ws' := ws[n := w];
    forall k | 0 <= k < 2 * |ws|
      ensures ByteAt(ws', k) == if 2 * first <= k < 2 * (n + 1) then image[k] else before[k]
    {
      if k / 2 == n {
        assert k == 2 * n || k == 2 * n + 1;
      } else {
        assert ByteAt(ws', k) == ByteAt(ws, k);
      }
    }
  }

  lemma NothingWritten(ws: seq<U16>, image: seq<Byte>, first: nat)
    requires |image| == 2 * |ws| && first <= |ws|
    ensures WrittenUpTo(ws, image, BytesOf(ws), first, first)
  {
  }

  lemma HalfOf(k: nat)
    ensures k == 2 * (k / 2) + k % 2 && k % 2 <= 1
  {
  }

  /** ixgbe_get_eeprom */
  method GetEeprom(eeprom: Eeprom, offset: nat, len: nat) returns (status: int, bytes: seq<Byte>)
    requires offset + len <= 2 * |eeprom.words|
    ensures len == 0 ==> status == EINVAL
    ensures len > 0 ==> status == 0 && bytes == BytesOf(eeprom.words)[offset..offset + len]
  {
    hide ByteAt;
    bytes := [];
    if len == 0 {
      return EINVAL, bytes;
    }
    HalfOf(offset);
    HalfOf(offset + len - 1);
    var first, last := offset / 2, (offset + len - 1) / 2;
    var n := last - first + 1;
    var buff := new Byte[2 * n](_ => 0);
    status := 0;
    for i := 0 to n
      invariant status == 0
      invariant forall k | 0 <= k < 2 * i :: buff[k] == ByteAt(eeprom.words, 2 * first + k)
    {
      var s, w := eeprom.Read(first + i, 0);
      status := s;
      BytePair(eeprom.words, first + i);
      buff[2 * i], buff[2 * i + 1] := w % 256, w / 256;
    }
    bytes := buff[offset % 2..offset % 2 + len];
    assert bytes == BytesOf(eeprom.words)[offset..offset + len];
  }

  /** The words of the buffer that the write loop takes. */
  ghost predicate BufferHolds(buff: seq<Byte>, image: seq<Byte>, first: nat, n: nat) {
    && 2 * n <= |buff| && 2 * (first + n) <= |image|
    && forall k | 0 <= k < 2 * n :: buff[k] == image[2 * first + k]
  }

  /** Fills the buffer: the bytes to keep at odd ends, and the new bytes between them. */
  method FillBuffer(eeprom: Eeprom, offset: nat, data: seq<Byte>, first: nat, last: nat) returns (status: int, buff: array<Byte>)
    requires 0 < |data| && offset + |data| <= 2 * |eeprom.words|
    requires first == offset / 2 && last == (offset + |data| - 1) / 2
    ensures fresh(buff) && buff.Length == 2 * |eeprom.words| && status == 0
    ensures BufferHolds(buff[..], Splice(BytesOf(eeprom.words), offset, data), first, last - first + 1)
  {
    hide ByteAt, BufferHolds, Splice, BytesOf;
    HalfOf(offset);
    HalfOf(offset + |data| - 1);
    buff := new Byte[2 * |eeprom.words|](_ => 0);
    KeepEnds(eeprom, buff, offset, |data|, first, last);
    status := 0;
    CopyInto(buff, offset % 2, data);
    EndsAndMiddle(buff[..], eeprom.words, offset, data, first, last - first + 1);
  }

  /** At odd ends the old word is read first: there the request has only one of its bytes. */
  method KeepEnds(eeprom: Eeprom, buff: array<Byte>, offset: nat, len: nat, first: nat, last: nat)
    requires 0 < len && offset + len <= 2 * |eeprom.words| == buff.Length
    requires 2 * first <= offset <= 2 * first + 1 && 2 * last <= offset + len - 1 <= 2 * last + 1
    modifies buff
    ensures offset != 2 * first ==> buff[0] == ByteAt(eeprom.words, 2 * first)
    ensures offset + len == 2 * last + 1 ==> buff[2 * (last - first) + 1] == ByteAt(eeprom.words, offset + len)
  {
    hide ByteAt;
    BytePair(eeprom.words, first);
    BytePair(eeprom.words, last);
    var at := 2 * (last - first);
    if offset % 2 == 1 {
      var _, w := eeprom.Read(first, 0);
      buff[0], buff[1] := w % 256, w / 256;
    }
    if (offset + len) % 2 == 1 {
      var _, w := eeprom.Read(last, 0);
      buff[at], buff[at + 1] := w % 256, w / 256;
    }
  }

  /** memcpy into the buffer. */
  method CopyInto(buff: array<Byte>, ptr: nat, data: seq<Byte>)
    requires ptr + |data| <= buff.Length
    modifies buff
    ensures forall k | 0 <= k < |data| :: buff[ptr + k] == data[k]
    ensures forall k | 0 <= k < buff.Length && !(ptr <= k < ptr + |data|) :: buff[k] == old(buff[k])
  {
    forall k | 0 <= k < |data| {
      buff[ptr + k] := data[k];
    }
  }

  /** The new bytes with the kept bytes at odd ends are the spliced image. */
  lemma EndsAndMiddle(buff: seq<Byte>, ws: seq<U16>, offset: nat, data: seq<Byte>, first: nat, n: nat)
    requires 0 < |data| && offset + |data| <= 2 * |ws| == |buff|
    requires 2 * first <= offset <= 2 * first + 1
    requires offset + |data| <= 2 * (first + n) <= offset + |data| + 1
    requires forall k | 0 <= k < |data| :: buff[offset - 2 * first + k] == data[k]
    requires offset != 2 * first ==> buff[0] == ByteAt(ws, 2 * first)
    requires offset + |data| != 2 * (first + n) ==> buff[2 * n - 1] == ByteAt(ws, offset + |data|)
    ensures BufferHolds(buff, Splice(BytesOf(ws), offset, data), first, n)
  {
    hide ByteAt;
    var ptr, image := offset - 2 * first, Splice(BytesOf(ws), offset, data);
    forall k | 0 <= k < 2 * n ensures buff[k] == image[2 * first + k] {
      if ptr <= k < ptr + |data| {
        var i := k - ptr;
        assert buff[offset - 2 * first + i] == data[i];
      }
    }
  }

  lemma AllWritten(ws: seq<U16>, image: seq<Byte>, before: seq<Byte>, offset: nat, data: seq<Byte>, n: nat)
    requires 0 < |data| && offset + |data| <= |before| && image == Splice(before, offset, data)
    requires n == (offset + |data| - 1) / 2 + 1 && WrittenUpTo(ws, image, before, offset / 2, n)
    ensures ws == WordsOf(image)
  {
    assert BytesOf(ws) == image by {
      forall k | 0 <= k < 2 * |ws| ensures ByteAt(ws, k) == image[k] {
      }
    }
    hide WordsOf, BytesOf;
    WordsOfBytes(ws);
  }

  /** ixgbe_set_eeprom: the bytes are spliced into the image, at any alignment, and the checksum
      word is then replaced. */
  method SetEeprom(eeprom: Eeprom, magicOk: bool, offset: nat, data: seq<Byte>) returns (status: int)
    requires offset + |data| <= 2 * |eeprom.words|
    requires data != [] && magicOk ==> var after := Spliced(eeprom.words, offset, data); Sized(after) && InRange(after)
    modifies eeprom
    ensures data == [] || !magicOk ==> status == (if data == [] then EOPNOTSUPP else EFAULT) && eeprom.words == old(eeprom.words)
    ensures data != [] && magicOk ==>
      var after := Spliced(old(eeprom.words), offset, data);
      status == 0 && eeprom.words == after[CHECKSUM_WORD := Checksum(after)]
  {
    hide InRange, Sized, BytesOf, WordsOf, Splice, Checksum;
    if |data| == 0 {
      return EOPNOTSUPP;
    }
    if !magicOk {
      return EFAULT;
    }
    var first, last := offset / 2, (offset + |data| - 1) / 2;
    var s, buff := FillBuffer(eeprom, offset, data, first, last);
    status := s;
    ghost var before := BytesOf(eeprom.words);
    ghost var image := Splice(before, offset, data);
    NothingWritten(eeprom.words, image, first);
    WriteBack(eeprom, buff, image, before, first, last);
    AllWritten(eeprom.words, image, before, offset, data, last + 1);
    var _ := eeprom.Update();
  }

  /** The loop that writes the words of the buffer. */
  method WriteBack(eeprom: Eeprom, buff: array<Byte>, ghost image: seq<Byte>, ghost before: seq<Byte>, first: nat, last: nat)
    requires first <= last < |eeprom.words|
    requires BufferHolds(buff[..], image, first, last - first + 1)
    requires WrittenUpTo(eeprom.words, image, before, first, first)
    modifies eeprom
    ensures WrittenUpTo(eeprom.words, image, before, first, last + 1)
  {
    hide WrittenUpTo, Checksum;
    var n := |eeprom.words|;
    SameSize(eeprom.words, image, before, first, first);
    for i := 0 to last - first + 1
      invariant |eeprom.words| == n && WrittenUpTo(eeprom.words, image, before, first, first + i)
    {
      var lo, hi := buff[2 * i], buff[2 * i + 1];
      PackBytes(lo, hi);
      WriteNext(eeprom.words, image, before, first, first + i, Pack(lo, hi));
      var _ := eeprom.Write(first + i, Pack(lo, hi));
    }
  }

  lemma SameSize(ws: seq<U16>, image: seq<Byte>, before: seq<Byte>, first: nat, n: nat)
    requires WrittenUpTo(ws, image, before, first, n)
    ensures |image| == 2 * |ws|
  {
  }

  lemma BytesOfWords(image: seq<Byte>, k: nat)
    requires k < 2 * (|image| / 2)
    ensures ByteAt(WordsOf(image), k) == image[k]
  {
    var i := k / 2;
    PackBytes(image[2 * i], image[2 * i + 1]);
  }

  /** What was set is what is read back, where the range does not touch the checksum word. */
  lemma SetThenGet(ws: seq<U16>, offset: nat, data: seq<Byte>, chk: U16)
    requires |ws| >= 64 && offset + |data| <= 2 * |ws|
    requires offset + |data| <= 2 * CHECKSUM_WORD || 2 * CHECKSUM_WORD + 2 <= offset
    ensures var after := Spliced(ws, offset, data)[CHECKSUM_WORD := chk];
      BytesOf(after)[offset..offset + |data|] == data
  {
    hide ByteAt, Pack;
    var image := Splice(BytesOf(ws), offset, data);
    var after := WordsOf(image)[CHECKSUM_WORD := chk];
    forall k | 0 <= k < |data| ensures ByteAt(after, offset + k) == data[k] {
      ByteSet(image, WordsOf(image), chk, offset + k);
    }
    BytesAre(after, offset, data);
  }

  lemma ByteSet(image: seq<Byte>, words: seq<U16>, chk: U16, k: nat)
    requires words == WordsOf(image) && k < 2 * |words| && CHECKSUM_WORD < |words|
    requires k < 2 * CHECKSUM_WORD || 2 * CHECKSUM_WORD + 2 <= k
    ensures ByteAt(words[CHECKSUM_WORD := chk], k) == image[k]
  {
    hide ByteAt;
    BytesOfWords(image, k);
    OtherByte(words, CHECKSUM_WORD, chk, k);
  }

  lemma BytesAre(ws: seq<U16>, offset: nat, data: seq<Byte>)
    requires offset + |data| <= 2 * |ws| && forall k | 0 <= k < |data| :: ByteAt(ws, offset + k) == data[k]
    ensures BytesOf(ws)[offset..offset + |data|] == data
  {
    hide ByteAt;
  }

  lemma OtherByte(ws: seq<U16>, i: nat, w: U16, k: nat)
    requires i < |ws| && k < 2 * |ws| && !(2 * i <= k < 2 * i + 2)
    ensures ByteAt(ws[i := w], k) == ByteAt(ws, k)
  {
    assert k / 2 != i;
  }
}
