/**
 The relay buffer: a byte queue in one block of memory that is compacted when its front
 half has been consumed, and the framing of queued bytes into messages.
 */
module ByteQueue {
  import opened Common

  const MAX_REP_LEN: nat := 10 * 1024

  class RingBuffer {
    const buf: array<Byte>
    var offset: nat
    var dataSize: nat
    var cumSize: nat
    ghost var removed: nat

    ghost predicate Valid()
      reads this
    {
      && 0 < buf.Length && offset + dataSize <= buf.Length
      && offset < buf.Length
      && cumSize == removed + dataSize
    }

    /** The queued bytes, oldest first. */
    ghost function Contents(): (s: seq<Byte>)
      requires Valid()
      reads this, buf
      ensures |s| == dataSize
    {
      buf[offset..offset + dataSize]
    }

    /** InitBuffer */
    constructor (size: nat)
      requires size > 0
      ensures Valid() && Contents() == [] && buf.Length == size && fresh(buf) && removed == 0
    {
      buf := new Byte[size](_ => 0);
      offset, dataSize, cumSize, removed := 0, 0, 0, 0;
    }

    /** GetRemainBufferSize: the room behind the queued bytes, after moving them to the start
        of the block when more than half of it lies unused in front of them. */
    method GetRemain() returns (room: nat)
      requires Valid()
      modifies this`offset, buf
      ensures Valid() && Contents() == old(Contents())
      ensures room == buf.Length - dataSize - offset && offset <= buf.Length / 2
      ensures offset == if old(offset) > buf.Length / 2 then 0 else old(offset)
    {
      assert offset <= buf.Length - 1;
      if offset > buf.Length / 2 {
        MoveDown(buf, offset, dataSize);
        offset := 0;
        return buf.Length - dataSize;
      }
      return buf.Length - dataSize - offset;
    }

    /** RemoveDataFromBuffer */
    method Remove(size: int) returns (r: int)
      requires Valid()
      modifies this
      ensures Valid()
      ensures if 0 <= size <= |old(Contents())|
              then r == size && Contents() == old(Contents())[size..] && removed == old(removed) + size
              else r == -1 && Contents() == old(Contents()) && removed == old(removed)
      ensures cumSize == old(cumSize)
      ensures offset == if r < 0 then old(offset) else if Contents() == [] then 0 else old(offset) + size
    {
      if size < 0 {
        return -1;
      }
      if size > dataSize {
        return -1;
      }
      ghost var was := Contents();
      dataSize := dataSize - size;
      if dataSize == 0 {
        offset := 0;
      } else {
        offset := offset + size;
      }
      removed := removed + size;
      assert Contents() == was[size..];
      return size;
    }

    /** AddDataLen: bytes already written behind the queue become part of it. */
    method AddDataLen(size: nat) returns (r: nat)
      requires Valid() && offset + dataSize + size <= buf.Length
      modifies this`dataSize, this`cumSize
      ensures Valid() && r == dataSize == old(dataSize) + size
      ensures Contents() == old(Contents()) + buf[offset + old(dataSize)..offset + old(dataSize) + size]
    {
      assert dataSize + size <= buf.Length;
      dataSize := dataSize + size;
      cumSize := cumSize + size;
      r := dataSize;
    }

    /** memcpy to the input point, followed by AddDataLen. */
    method Append(bytes: seq<Byte>)
      requires Valid() && offset + dataSize + |bytes| <= buf.Length
      modifies this`dataSize, this`cumSize, buf
      ensures Valid() && Contents() == old(Contents()) + bytes
      ensures dataSize == old(dataSize) + |bytes|
    {
      var ip := offset + dataSize;
      Write(ip, bytes);
      var _ := AddDataLen(|bytes|);
    }

    method Write(at: nat, bytes: seq<Byte>)
      requires at + |bytes| <= buf.Length
      modifies buf
      ensures buf[..at] == old(buf[..at]) && buf[at..at + |bytes|] == bytes
    {
      forall i | 0 <= i < |bytes| {
        buf[at + i] := bytes[i];
      }
    }
  }

  /** CopyData */
  method CopyData(dest: RingBuffer, src: RingBuffer, len: nat) returns (n: nat)
    requires dest != src && dest.buf != src.buf && dest.Valid() && src.Valid()
    modifies dest, dest.buf
    ensures dest.Valid() && src.Valid() && src.Contents() == old(src.Contents())
    ensures n <= Min(len, |src.Contents()|)
    ensures dest.Contents() == old(dest.Contents()) + src.Contents()[..n]
    ensures n < Min(len, |src.Contents()|) ==> dest.offset + dest.dataSize == dest.buf.Length
  {
    var toCpy := dest.GetRemain();
    if toCpy <= 0 {
      return 0;
    }
    toCpy := Min(toCpy, len);
    toCpy := Min(src.dataSize, toCpy);
    dest.Append(src.buf[src.offset..src.offset + toCpy]);
    n := toCpy;
  }

  // ----- framing -----

  /** The message header in memory: its size and how a message length is stored in it. */
  datatype Layout = Layout(size: nat, encode: nat -> seq<Byte>, decode: seq<Byte> -> nat)

  ghost predicate Sound(layout: Layout) {
    forall n: nat | 1 <= n <= MAX_REP_LEN :: |layout.encode(n)| == layout.size && layout.decode(layout.encode(n)) == n
  }

  ghost predicate IsPayload(p: seq<Byte>) {
    1 <= |p| <= MAX_REP_LEN
  }

  ghost predicate Payloads(ps: seq<seq<Byte>>) {
    forall i | 0 <= i < |ps| :: IsPayload(ps[i])
  }

  /** The messages one after the other, each with its header. */
  ghost function Framed(layout: Layout, ps: seq<seq<Byte>>): seq<Byte> {
    if ps == [] then []
    else Framed(layout, ps[..|ps| - 1]) + (layout.encode(|ps[|ps| - 1]|) + ps[|ps| - 1])
  }

  ghost function Joined(ps: seq<seq<Byte>>): seq<Byte> {
    if ps == [] then [] else Joined(ps[..|ps| - 1]) + ps[|ps| - 1]
  }

  /** What a receiver that reads header by header recovers. */
  function Deframe(layout: Layout, bytes: seq<Byte>): Option<seq<Byte>>
    decreases |bytes|
  {
    if bytes == [] then Some([])
    else if |bytes| < layout.size then None
    else
      var n := layout.decode(bytes[..layout.size]);
      if n == 0 || |bytes| < layout.size + n then None
      else
        match Deframe(layout, bytes[layout.size + n..])
        case None => None
        case Some(rest) => Some(bytes[layout.size..layout.size + n] + rest)
  }

  /** Reading back one message in front of others. */
  lemma DeframeOne(layout: Layout, p: seq<Byte>, rest: seq<Byte>)
    requires Sound(layout) && IsPayload(p) && Deframe(layout, rest).Some?
    ensures Deframe(layout, layout.encode(|p|) + p + rest) == Some(p + Deframe(layout, rest).value)
  {
    var bytes := layout.encode(|p|) + p + rest;
    assert bytes[..layout.size] == layout.encode(|p|);
    assert bytes[layout.size..layout.size + |p|] == p;
    assert bytes[layout.size + |p|..] == rest;
  }

  /** Deframing undoes framing, whatever the header layout. */
  lemma {:induction false} FramingRoundTrip(layout: Layout, ps: seq<seq<Byte>>, rest: seq<Byte>)
    requires Sound(layout) && Payloads(ps) && Deframe(layout, rest).Some?
    ensures Deframe(layout, Framed(layout, ps) + rest) == Some(Joined(ps) + Deframe(layout, rest).value)
    decreases |ps|
  {
    hide Deframe, Sound;
    if ps == [] {
      assert Framed(layout, ps) + rest == rest;
      assert Joined(ps) + Deframe(layout, rest).value == Deframe(layout, rest).value;
    } else {
      var front, p := ps[..|ps| - 1], ps[|ps| - 1];
      var m := layout.encode(|p|) + p;
      DeframeOne(layout, p, rest);
      FramingRoundTrip(layout, front, m + rest);
      assert Framed(layout, ps) + rest == Framed(layout, front) + (m + rest);
      assert Joined(ps) + Deframe(layout, rest).value == Joined(front) + (p + Deframe(layout, rest).value);
    }
  }

  lemma FramedSnoc(layout: Layout, ps: seq<seq<Byte>>, p: seq<Byte>)
    ensures Framed(layout, ps + [p]) == Framed(layout, ps) + layout.encode(|p|) + p
    ensures Joined(ps + [p]) == Joined(ps) + p
  {
    assert (ps + [p])[..|ps|] == ps;
  }

  /** The bytes appended to the destination `before` are messages whose payloads, joined, are
      the first `sum` bytes of `queue`; the source has the rest. */
  ghost predicate Moved(layout: Layout, before: seq<Byte>, queue: seq<Byte>, sum: nat, ps: seq<seq<Byte>>,
                        dest: seq<Byte>, src: seq<Byte>) {
    && Payloads(ps) && dest == before + Framed(layout, ps)
    && sum <= |queue| && Joined(ps) == queue[..sum] && src == queue[sum..]
  }

  lemma MovedStep(layout: Layout, before: seq<Byte>, queue: seq<Byte>, sum: nat, ps: seq<seq<Byte>>,
                  dest: seq<Byte>, src: seq<Byte>, n: nat)
    requires Moved(layout, before, queue, sum, ps, dest, src) && 1 <= n <= MAX_REP_LEN && n <= |src|
    ensures Moved(layout, before, queue, sum + n, ps + [src[..n]], dest + layout.encode(n) + src[..n], src[n..])
  {
    hide Framed;
    FramedSnoc(layout, ps, src[..n]);
    assert queue[..sum] + src[..n] == queue[..sum + n];
    assert dest + layout.encode(n) + src[..n] == before + (Framed(layout, ps) + layout.encode(n) + src[..n]);
  }

  lemma NothingMoved(layout: Layout, before: seq<Byte>, queue: seq<Byte>)
    ensures Moved(layout, before, queue, 0, [], before, queue)
  {
  }

  /** MoveToREPData. It stops short of what was asked only for lack of room. */
  method MoveToREPData(layout: Layout, dest: RingBuffer, src: RingBuffer, len: int)
    returns (sum: nat, ghost ps: seq<seq<Byte>>)
    requires Sound(layout)
    requires dest != src && dest.buf != src.buf && dest.Valid() && src.Valid()
    modifies dest, dest.buf, src
    ensures dest.Valid() && src.Valid()
    ensures Moved(layout, old(dest.Contents()), old(src.Contents()), sum, ps, dest.Contents(), src.Contents())
    ensures sum <= Want(|old(src.Contents())|, len)
    ensures sum < Want(|old(src.Contents())|, len) ==> dest.buf.Length - dest.offset - dest.dataSize <= layout.size
    ensures old(dest.Contents()) <= dest.Contents() && sum <= |old(src.Contents())|
    ensures Deframe(layout, dest.Contents()[|old(dest.Contents())|..]) == Some(old(src.Contents())[..sum])
  {
    hide Moved, Sound, RingBuffer.Contents;
    sum, ps := 0, [];
    var dataSize := src.dataSize;
    var remain := dest.GetRemain();
    if len > 0 {
      dataSize := Min(dataSize, len);
    }
    ghost var before, queue := dest.Contents(), src.Contents();
    NothingMoved(layout, before, queue);
    while dataSize > 0 && remain > layout.size
      invariant dest.Valid() && src.Valid() && 0 <= dataSize <= src.dataSize
      invariant remain == dest.buf.Length - dest.dataSize - dest.offset
      invariant sum + dataSize == Want(|queue|, len)
      invariant Moved(layout, before, queue, sum, ps, dest.Contents(), src.Contents())
      decreases dataSize
    {
      var toMove := Min(dataSize, remain - layout.size);
      toMove := Min(toMove, MAX_REP_LEN);
      remain := remain - layout.size;
      remain := remain - toMove;
      dataSize := dataSize - toMove;
      MovedStep(layout, before, queue, sum, ps, dest.Contents(), src.Contents(), toMove);
      ps := ps + [src.Contents()[..toMove]];
      Step(dest, src, layout, toMove);
      sum := sum + toMove;
    }
    MovedReadsBack(layout, before, queue, sum, ps, dest.Contents(), src.Contents());
  }

  /** Deframing what was appended gives what left the source. */
  lemma MovedReadsBack(layout: Layout, before: seq<Byte>, queue: seq<Byte>, sum: nat, ps: seq<seq<Byte>>,
                       dest: seq<Byte>, src: seq<Byte>)
    requires Sound(layout) && Moved(layout, before, queue, sum, ps, dest, src)
    ensures before <= dest && sum <= |queue| && Deframe(layout, dest[|before|..]) == Some(queue[..sum])
  {
    hide Sound, Deframe;
    NothingDeframed(layout);
    FramingRoundTrip(layout, ps, []);
    assert dest[|before|..] == Framed(layout, ps) + [];
    assert Joined(ps) + [] == Joined(ps);
  }

  lemma NothingDeframed(layout: Layout)
    ensures Deframe(layout, []) == Some([])
  {
  }

  function Want(queued: nat, len: int): nat {
    if len > 0 then Min(queued, len) else queued
  }

  /** One turn of the loop: a header, its payload, and the payload leaves the source. */
  method Step(dest: RingBuffer, src: RingBuffer, layout: Layout, n: nat)
    requires dest != src && dest.buf != src.buf && dest.Valid() && src.Valid() && Sound(layout)
    requires 1 <= n <= MAX_REP_LEN && n <= src.dataSize
    requires dest.offset + dest.dataSize + layout.size + n <= dest.buf.Length
    modifies dest`dataSize, dest`cumSize, dest.buf, src
    ensures dest.Valid() && src.Valid() && dest.dataSize == old(dest.dataSize) + layout.size + n
    ensures dest.Contents() == old(dest.Contents()) + layout.encode(n) + old(src.Contents())[..n]
    ensures src.Contents() == old(src.Contents())[n..]
  {
    dest.Append(layout.encode(n));
    dest.Append(src.buf[src.offset..src.offset + n]);
    var ret := src.Remove(n);
    assert ret == n;
  }
}
