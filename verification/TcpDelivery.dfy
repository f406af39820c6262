/**
 What the receive buffer is for: over every run of arriving segments and reads, the reader gets
 the sender's stream in order. The runs are those of the buffer itself, by sequence number.
 */
module TcpDelivery {
  import opened Common
  import opened TcpReassembly

  // ----- every run of the stream -----

  ghost function After(size: nat, events: seq<Event>): Rx {
    if events == [] then Rx(0, map[])
    else Next(After(size, events[..|events| - 1]), size, events[|events| - 1])
  }

  /** Everything the reader has been given. */
  ghost function Output(size: nat, events: seq<Event>): seq<Byte> {
    if events == [] then []
    else
      var rx, e := After(size, events[..|events| - 1]), events[|events| - 1];
      Output(size, events[..|events| - 1]) + StreamFront(rx, Taken(rx, e))
  }

  /** The stream offsets of all segments that were stored when they came. */
  ghost function Arrived(size: nat, events: seq<Event>): set<nat> {
    if events == [] then {}
    else
      var rx, e := After(size, events[..|events| - 1]), events[|events| - 1];
      Arrived(size, events[..|events| - 1])
      + (if e.Segment? && Accepts(rx, size, e.off, e.payload) then Placed(e.off, e.payload).Keys else {})
  }

  ghost predicate SentFrom(stream: seq<Byte>, e: Event) {
    e.Segment? ==> e.off + |e.payload| <= |stream| && e.payload == stream[e.off..e.off + |e.payload|]
  }

  /** Every stored byte is a byte of the stream that has not been read yet. */
  ghost predicate Faithful(rx: Rx, stream: seq<Byte>) {
    && rx.base <= |stream|
    && (forall k | k in rx.got :: rx.base <= k < |stream| && rx.got[k] == stream[k])
  }

  lemma StepIsFaithful(rx: Rx, size: nat, e: Event, stream: seq<Byte>)
    requires Faithful(rx, stream) && SentFrom(stream, e)
    ensures var n := Taken(rx, e);
      rx.base + n <= |stream| && StreamFront(rx, n) == stream[rx.base..rx.base + n]
    ensures Faithful(Next(rx, size, e), stream) && Next(rx, size, e).base == rx.base + Taken(rx, e)
  {
    var n := Taken(rx, e);
    if n > 0 {
      assert rx.base + n - 1 in rx.got;
    }
  }

  /** Segments of one stream, in any order, lost, duplicated or overlapping: the reader
      gets a prefix of the stream, in order and without a byte missing or repeated. */
  lemma {:induction false} InOrderDelivery(size: nat, events: seq<Event>, stream: seq<Byte>)
    requires forall e | e in events :: SentFrom(stream, e)
    ensures Faithful(After(size, events), stream)
    ensures Output(size, events) == stream[..After(size, events).base]
  {
    hide Faithful, Next, Taken, StreamFront, SentFrom;
    if events == [] {
      NothingIsFaithful(stream);
    } else {
      var before, e := events[..|events| - 1], events[|events| - 1];
      InOrderDelivery(size, before, stream);
      var rx := After(size, before);
      StepIsFaithful(rx, size, e, stream);
      assert stream[..rx.base] + stream[rx.base..rx.base + Taken(rx, e)] == stream[..rx.base + Taken(rx, e)];
    }
  }

  lemma NothingIsFaithful(stream: seq<Byte>)
    ensures Faithful(Rx(0, map[]), stream)
  {
  }

  /** What arrived is what has been read and what is stored. */
  lemma {:induction false} ArrivedIsReadOrStored(size: nat, events: seq<Event>)
    ensures forall k: nat :: k in Arrived(size, events) <==>
        k < After(size, events).base || k in After(size, events).got
  {
    if events != [] {
      ArrivedIsReadOrStored(size, events[..|events| - 1]);
      var rx, e := After(size, events[..|events| - 1]), events[|events| - 1];
      assert forall k: nat | rx.base <= k < rx.base + Taken(rx, e) :: k in rx.got;
    }
  }

  /** The acknowledged position is the end of the longest prefix all of whose bytes arrived:
      no hole is skipped and no byte behind the first hole is held back. */
  lemma AckIsLongestPrefix(size: nat, events: seq<Event>)
    ensures var rx := After(size, events);
      var ack := rx.base + Run(rx);
      (forall k: nat | k < ack :: k in Arrived(size, events)) && ack !in Arrived(size, events)
  {
    hide After, Arrived, Run;
    ArrivedIsReadOrStored(size, events);
  }

  // ----- the buffer in every run -----

  /** Every segment is near the head when it arrives. */
  ghost predicate AllNear(size: nat, events: seq<Event>) {
    forall i | 0 <= i < |events| :: NearHead(After(size, events[..i]), events[i])
  }

  /** A stream of segments and reads on a new buffer, by sequence number: however often the
      numbers wrap, the buffer does what the map of stream offsets does. */
  method Play(initSeq: nat, size: nat, events: seq<Event>) returns (buff: RecvBuffer, out: seq<Byte>)
    requires initSeq < SEQ_SPACE && 0 < size < HALF - 1 && AllNear(size, events)
    ensures fresh(buff) && buff.Valid() && buff.rx == After(size, events) && out == Output(size, events)
  {
    hide RecvBuffer.Valid, NearHead, Next, Taken, StreamFront;
    buff := new RecvBuffer(initSeq, size);
    out := [];
    for i := 0 to |events|
      invariant fresh(buff) && fresh(buff.data) && buff.Valid() && buff.size == size
      invariant buff.rx == After(size, events[..i]) && out == Output(size, events[..i])
    {
      assert NearHead(After(size, events[..i]), events[i]);
      AfterNext(size, events, i);
      match events[i] {
        case Segment(off, payload) =>
          buff.PutAt(off, payload);
        case Read(n) =>
          var bytes := buff.ReadUpTo(n);
          out := out + bytes;
      }
    }
    assert events[..|events|] == events;
  }

  lemma AfterNext(size: nat, events: seq<Event>, i: nat)
    requires i < |events|
    ensures After(size, events[..i + 1]) == Next(After(size, events[..i]), size, events[i])
    ensures var rx := After(size, events[..i]);
      Output(size, events[..i + 1]) ==
      if events[i].Read? then Output(size, events[..i]) + StreamFront(rx, Taken(rx, events[i])) else Output(size, events[..i])
  {
    assert events[..i + 1][..i] == events[..i];
  }

  // ----- the receive path in every run -----

  const INITIAL_WINDOW: nat := 14600

  /** The receiver: the stream and the window that the next segment is tested against. */
  datatype Receiver = Receiver(rx: Rx, wnd: nat)

  /** Segments of IP packets, near the head and near the next byte expected. */
  ghost predicate NearNext(rx: Rx, e: Event) {
    NearHead(rx, e) && (e.Segment? ==> |e.payload| <= 65535 && rx.base + Run(rx) < e.off + |e.payload| + HALF)
  }

  /** Segments are kept when they end in the window; reads always are. */
  ghost predicate Keeps(r: Receiver, e: Event) {
    e.Segment? ==> r.rx.base + Run(r.rx) <= e.off + |e.payload| <= r.rx.base + Run(r.rx) + r.wnd
  }

  /** The window that is set after an event, if it is set. */
  ghost function Window(rx: Rx, size: nat): nat {
    if Run(rx) <= size then size - Run(rx) else 0
  }

  ghost function Receive(r: Receiver, size: nat, e: Event): Receiver {
    var rx := Next(r.rx, size, e);
    if !Keeps(r, e) || (e.Read? && Taken(r.rx, e) == 0) then r else Receiver(rx, Window(rx, size))
  }

  ghost function Received(size: nat, events: seq<Event>): Receiver {
    if events == [] then Receiver(Rx(0, map[]), INITIAL_WINDOW)
    else Receive(Received(size, events[..|events| - 1]), size, events[|events| - 1])
  }

  /** The events that were not dropped by the window test. */
  ghost function Kept(size: nat, events: seq<Event>): (kept: seq<Event>)
    ensures forall e | e in kept :: e in events
  {
    if events == [] then []
    else
      var before, e := events[..|events| - 1], events[|events| - 1];
      Kept(size, before) + if Keeps(Received(size, before), e) then [e] else []
  }

  lemma NothingTaken(rx: Rx, size: nat, n: nat)
    requires Taken(rx, Read(n)) == 0 && forall k | k in rx.got :: rx.base <= k
    ensures Next(rx, size, Read(n)) == rx
  {
    assert StreamDrop(rx, 0).got == rx.got;
  }

  lemma {:induction false} StoredAhead(size: nat, events: seq<Event>)
    ensures forall k | k in After(size, events).got :: After(size, events).base <= k
  {
    if events != [] {
      StoredAhead(size, events[..|events| - 1]);
    }
  }

  /** The receive path with its window is the buffer on the events that were kept. */
  lemma {:induction false} ReceivedIsAfterKept(size: nat, events: seq<Event>)
    ensures Received(size, events).rx == After(size, Kept(size, events))
  {
    hide Next, Run, Taken, Keeps, Window;
    if events != [] {
      var before, e := events[..|events| - 1], events[|events| - 1];
      ReceivedIsAfterKept(size, before);
      var kept := Kept(size, before);
      if Keeps(Received(size, before), e) {
        assert (kept + [e])[..|kept|] == kept;
        if e.Read? && Taken(Received(size, before).rx, e) == 0 {
          StoredAhead(size, kept);
          NothingTaken(Received(size, before).rx, size, e.n);
        }
      } else {
        assert kept + [] == kept;
      }
    }
  }

  /** The difference of two sequence numbers less than half the space apart. */
  lemma WireDifference(init: nat, a: nat, b: nat)
    requires init < SEQ_SPACE && a < b + HALF && b < a + HALF
    ensures SeqSub(Wire(init, b), Wire(init, a)) == if a <= b then b - a else SEQ_SPACE - (a - b)
  {
    hide Wire, SeqAdd, SeqSub;
    if a <= b {
      WrapAdd(init, a, b - a);
      Distance(Wire(init, a), b - a, b - a);
    } else {
      WrapAdd(init, b, a - b);
      BackDistance(Wire(init, b), a - b);
    }
  }

  lemma BackDistance(h: nat, x: nat)
    requires h < SEQ_SPACE && 0 < x < SEQ_SPACE
    ensures SeqSub(h, SeqAdd(h, x)) == SEQ_SPACE - x
  {
  }

  /** Near the next byte expected, the signed comparisons of the window test compare offsets. */
  lemma WindowTestOffsets(init: nat, base: nat, merged: nat, wnd: nat, off: nat, len: nat)
    requires init < SEQ_SPACE && merged + wnd < HALF && len <= 65535
    requires base + merged < off + len + HALF && off + len < base + HALF
    ensures WindowTest(Wire(init, base), merged, wnd, Wire(init, off), len) <==>
            base + merged <= off + len <= base + merged + wnd
  {
    hide Wire, SeqAdd, SeqSub;
    WrapAdd(init, off, len);
    WrapAdd(init, base, merged);
    WrapAdd(init, base + merged, wnd);
    WireDifference(init, base + merged, off + len);
    if base + merged <= off + len {
      WireDifference(init, base + merged + wnd, off + len);
    }
  }

  lemma ReceivedNext(size: nat, events: seq<Event>, i: nat)
    requires i < |events|
    ensures Received(size, events[..i + 1]) == Receive(Received(size, events[..i]), size, events[i])
    ensures Kept(size, events[..i + 1]) ==
      Kept(size, events[..i]) + if Keeps(Received(size, events[..i]), events[i]) then [events[i]] else []
  {
    assert events[..i + 1][..i] == events[..i];
  }

  /** The window ends at the end of the buffer, or is the initial one before anything was stored. */
  predicate WindowSet(size: nat, merged: nat, wnd: nat) {
    merged + wnd == size || (merged == 0 && wnd == INITIAL_WINDOW)
  }

  /** A segment on the receive path. */
  method ReceiveSegment(buff: RecvBuffer, off: nat, payload: seq<Byte>, wnd: nat) returns (rcvNxt: nat, rcvWnd: nat)
    requires buff.Valid() && NearNext(buff.rx, Segment(off, payload)) && WindowSet(buff.size, buff.mergedLen, wnd)
    modifies buff, buff.data
    ensures buff.Valid() && buff.data == old(buff.data) && WindowSet(buff.size, buff.mergedLen, rcvWnd)
    ensures Receiver(buff.rx, rcvWnd) == Receive(Receiver(old(buff.rx), wnd), buff.size, Segment(off, payload))
    ensures buff.initSeq < SEQ_SPACE && rcvNxt == Wire(buff.initSeq, buff.rx.base + Run(buff.rx))
  {
    hide RecvBuffer.Valid, Wire, SeqAdd, SeqSub, GetMinSeq, StreamPut, Run, Readable, WindowTest;
    buff.HeadIsWire();
    buff.MergedIsRun();
    WireOrder(buff.initSeq, buff.rx.base, off);
    BeforeHead(buff.rx, buff.size, off, payload);
    WindowTestOffsets(buff.initSeq, buff.rx.base, buff.mergedLen, wnd, off, |payload|);
    var ret;
    rcvNxt, rcvWnd, ret := buff.ProcessPayload(payload, Wire(buff.initSeq, off), wnd);
    buff.MergedIsRun();
  }

  /** CopyToUser: what can be read is taken and the window set anew, or nothing happens. */
  method CopyToUser(buff: RecvBuffer, n: nat, wnd: nat) returns (out: seq<Byte>, rcvWnd: nat)
    requires buff.Valid() && WindowSet(buff.size, buff.mergedLen, wnd)
    modifies buff
    ensures buff.Valid() && buff.data == old(buff.data) && WindowSet(buff.size, buff.mergedLen, rcvWnd)
    ensures Receiver(buff.rx, rcvWnd) == Receive(Receiver(old(buff.rx), wnd), buff.size, Read(n))
    ensures out == StreamFront(old(buff.rx), Taken(old(buff.rx), Read(n)))
    ensures buff.rx.base + Run(buff.rx) == old(buff.rx).base + Run(old(buff.rx))
  {
    hide RecvBuffer.Valid, StreamDrop, Run;
    buff.MergedIsRun();
    out, rcvWnd := [], wnd;
    if n > 0 && buff.mergedLen > 0 {
      out := buff.ReadUpTo(n);
      buff.MergedIsRun();
      RunAfterRead(old(buff.rx), Taken(old(buff.rx), Read(n)));
      rcvWnd := buff.size - buff.mergedLen;
    }
  }

  lemma RunAfterRead(rx: Rx, n: nat)
    requires n <= Run(rx)
    ensures Run(StreamDrop(rx, n)) == Run(rx) - n
  {
    hide Run;
    assert Readable(StreamDrop(rx, n), Run(rx) - n) by {
      assert rx.base + Run(rx) !in rx.got;
    }
    ReadableUnique(StreamDrop(rx, n), Run(rx) - n, Run(StreamDrop(rx, n)));
  }

  ghost predicate AllNearNext(size: nat, events: seq<Event>) {
    forall i | 0 <= i < |events| :: NearNext(Received(size, events[..i]).rx, events[i])
  }

  /** The whole receive path on a new connection, by sequence number and with the windows the code
      sets: the reader gets the bytes of the kept events, and rcv_nxt is the first byte missing. */
  method ReceiveAll(initSeq: nat, size: nat, events: seq<Event>) returns (buff: RecvBuffer, out: seq<Byte>, rcvNxt: nat)
    requires initSeq < SEQ_SPACE && 0 < size < HALF - 1 && AllNearNext(size, events)
    ensures fresh(buff) && buff.Valid() && buff.rx == Received(size, events).rx
    ensures out == Output(size, Kept(size, events)) && rcvNxt == Wire(initSeq, buff.rx.base + Run(buff.rx))
  {
    hide RecvBuffer.Valid, NearNext, Receive, Received, Keeps, Kept, Output, Taken, StreamFront, Run, Wire;
    buff := new RecvBuffer(initSeq, size);
    out := [];
    var wnd := INITIAL_WINDOW;
    NothingReceived(initSeq, size, events);
    rcvNxt := initSeq;
    buff.MergedIsRun();
    for i := 0 to |events|
      invariant fresh(buff) && fresh(buff.data) && buff.Valid() && buff.size == size && buff.initSeq == initSeq
      invariant WindowSet(size, buff.mergedLen, wnd) && Receiver(buff.rx, wnd) == Received(size, events[..i])
      invariant out == Output(size, Kept(size, events[..i])) && rcvNxt == Wire(initSeq, buff.rx.base + Run(buff.rx))
    {
      assert NearNext(Received(size, events[..i]).rx, events[i]);
      ReceivedNext(size, events, i);
      OutputNext(size, events, i);
      match events[i] {
        case Segment(off, payload) =>
          rcvNxt, wnd := ReceiveSegment(buff, off, payload, wnd);
        case Read(n) =>
          var bytes;
          bytes, wnd := CopyToUser(buff, n, wnd);
          out := out + bytes;
      }
    }
    assert events[..|events|] == events;
  }

  lemma NothingReceived(init: nat, size: nat, events: seq<Event>)
    requires init < SEQ_SPACE
    ensures var rx := Rx(0, map[]);
      Received(size, events[..0]) == Receiver(rx, INITIAL_WINDOW) && Run(rx) == 0 && Wire(init, rx.base + Run(rx)) == init
    ensures Output(size, Kept(size, events[..0])) == []
  {
  }

  lemma OutputNext(size: nat, events: seq<Event>, i: nat)
    requires i < |events|
    ensures var rx := Received(size, events[..i]).rx;
      var before, after := Output(size, Kept(size, events[..i])), Output(size, Kept(size, events[..i + 1]));
      after == if events[i].Read? then before + StreamFront(rx, Taken(rx, events[i])) else before
  {
    hide Next, Taken, StreamFront, Receive;
    var kept, e := Kept(size, events[..i]), events[i];
    ReceivedNext(size, events, i);
    ReceivedIsAfterKept(size, events[..i]);
    if Keeps(Received(size, events[..i]), e) {
      assert (kept + [e])[..|kept|] == kept;
      if e.Segment? {
        NothingFromSegments(After(size, kept), e);
      }
    } else {
      assert kept + [] == kept;
    }
  }

  lemma NothingFromSegments(rx: Rx, e: Event)
    requires e.Segment?
    ensures StreamFront(rx, Taken(rx, e)) == []
  {
  }

  /** Segments of one stream on the receive path, in any order, lost, duplicated or overlapping, in
      the window or not: the reader has a prefix of the stream, and the byte that rcv_nxt names is
      the first that no kept segment has brought. */
  lemma ReceivedInOrder(size: nat, events: seq<Event>, stream: seq<Byte>)
    requires forall e | e in events :: SentFrom(stream, e)
    ensures var rx := Received(size, events).rx;
      var arrived := Arrived(size, Kept(size, events));
      && Faithful(rx, stream) && Output(size, Kept(size, events)) == stream[..rx.base]
      && (forall k: nat | k < rx.base + Run(rx) :: k in arrived) && rx.base + Run(rx) !in arrived
  {
    hide After, Arrived, Run, Received, Output, Faithful;
    ReceivedIsAfterKept(size, events);
    InOrderDelivery(size, Kept(size, events), stream);
    AckIsLongestPrefix(size, Kept(size, events));
  }
}
