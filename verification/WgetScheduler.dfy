/**
 The epoll-driven HTTP client: how one download is judged, how a thread keeps its
 connections going, and how the flows are dealt out to the threads.
 */
module WgetScheduler {
  import opened Common

  const HTTP_HEADER_LEN: nat := 1024
  const TWO64: nat := 0x1_0000_0000_0000_0000

  // ----- one download -----

  /**
   One result of mtcp_read. `Data` also carries what the header parser answers for the
   response buffer after this read: the length of the header (0 if there is no end of
   header) and the value of the Content-Length field (negative if there is none).
   */
  datatype Read =
    | Data(n: nat, header: nat, length: int)
    | Eof
    | Again
    | Failed

  datatype Verdict = Open | Complete | Incomplete | Error

  datatype Download = Download(requestSent: bool, respLen: nat, headerset: bool, headerLen: nat, fileLen: nat, recv: nat)

  const FRESH := Download(false, 0, false, 0, 0, 0)

  /** A parser never finds a header longer than the bytes it was given. */
  predicate Possible(d: Download, r: Read) {
    r.Data? ==> 0 < r.n && d.respLen <= HTTP_HEADER_LEN && r.header <= d.respLen + Min(r.n, HTTP_HEADER_LEN - d.respLen)
  }

  /** The end of the response, in 64-bit arithmetic. */
  function Promised(d: Download): nat {
    (d.headerLen + d.fileLen) % TWO64
  }

  predicate Full(d: Download) {
    d.headerLen != 0 && d.recv >= Promised(d)
  }

  /** What a read of data leaves in the download, and the `rd` that the loop goes on with. */
  function Take(d: Download, r: Read): (Download, nat)
    requires r.Data? && Possible(d, r) && (d.headerset || r.header > 0)
  {
    if d.headerset then (d.(recv := d.recv + r.n), r.n)
    else
      var respLen := d.respLen + Min(r.n, HTTP_HEADER_LEN - d.respLen);
      (d.(respLen := respLen, headerset := true, headerLen := r.header, fileLen := r.length % TWO64, recv := d.recv + r.n),
       respLen - r.header)
  }

  predicate AllPossible(d: Download, rs: seq<Read>)
    decreases |rs|
  {
    rs == [] ||
    (Possible(d, rs[0]) &&
     (rs[0].Data? && (d.headerset || rs[0].header > 0) ==> AllPossible(Take(d, rs[0]).0, rs[1..])))
  }

  /** One call of HandleReadEvent, as far as the download is concerned. */
  function Scan(d: Download, rs: seq<Read>): (Download, Verdict)
    requires AllPossible(d, rs)
    decreases |rs|
  {
    if rs == [] then (d, Open)
    else
      match rs[0]
      case Again => (d, Open)
      case Failed => (d, Error)
      case Eof => (d, if Full(d) then Complete else Incomplete)
      case Data(n, header, _) =>
        if !d.headerset && header == 0 then (d, Error)
        else
          var (d1, rd) := Take(d, rs[0]);
          if Full(d1) then (d1, Complete)
          else if rd == 0 then (d1, Incomplete)
          else Scan(d1, rs[1..])
  }

  /** Before the header nothing was received; after it, less than was promised. */
  predicate Waiting(d: Download) {
    if d.headerset then d.headerLen > 0 && d.recv < Promised(d) else d.recv == d.respLen == d.headerLen == 0
  }

  lemma {:induction false} OpenIsWaiting(d: Download, rs: seq<Read>)
    requires AllPossible(d, rs) && Waiting(d)
    ensures Scan(d, rs).1.Open? ==> Waiting(Scan(d, rs).0)
    ensures d.requestSent ==> Scan(d, rs).0.requestSent
    decreases |rs|
  {
    if rs != [] && rs[0].Data? && (d.headerset || rs[0].header > 0) {
      var (d1, rd) := Take(d, rs[0]);
      if !Full(d1) && rd != 0 {
        OpenIsWaiting(d1, rs[1..]);
      }
    }
  }

  // ----- what a download means -----

  /** Bytes of data in front of the first read that is not data. */
  function Received(rs: seq<Read>): nat {
    if rs == [] || !rs[0].Data? then 0 else rs[0].n + Received(rs[1..])
  }

  /** What the server did after that. */
  function Ending(rs: seq<Read>): Verdict {
    if rs == [] then Open
    else
      match rs[0]
      case Data(_, _, _) => Ending(rs[1..])
      case Eof => Incomplete
      case Again => Open
      case Failed => Error
  }

  /** The download is complete once everything promised has arrived; else the server decides. */
  function Fair(promised: nat, rs: seq<Read>): Verdict {
    if Received(rs) >= promised then Complete else Ending(rs)
  }

  lemma {:induction false} BodyIsFair(d: Download, rs: seq<Read>)
    requires AllPossible(d, rs) && d.headerset && Waiting(d)
    ensures Scan(d, rs).1 == Fair(Promised(d) - d.recv, rs)
    decreases |rs|
  {
    if rs != [] && rs[0].Data? {
      var d1 := Take(d, rs[0]).0;
      if !Full(d1) {
        BodyIsFair(d1, rs[1..]);
      }
    }
  }

  function FirstPromise(r: Read): nat
    requires r.Data?
  {
    (r.header + r.length % TWO64) % TWO64
  }

  /** The header fills the buffered part of the first read, and there is more to come. */
  predicate HeaderAlone(r: Read)
    requires r.Data?
  {
    r.header == Min(r.n, HTTP_HEADER_LEN) && r.n < FirstPromise(r)
  }

  /** What the first header found in the data promises. */
  function Promise(rs: seq<Read>): Option<nat> {
    if rs == [] || !rs[0].Data? then None
    else if rs[0].header > 0 then Some(FirstPromise(rs[0]))
    else Promise(rs[1..])
  }

  /** The fair verdict on any reads: without a header nothing can be complete. */
  function FairAll(rs: seq<Read>): Verdict {
    match Promise(rs)
    case Some(promised) => Fair(promised, rs)
    case None => Ending(rs)
  }

  /**
   A download whose first read holds the header is judged fairly, unless the header comes
   alone: then it counts as incomplete, whatever the server goes on to do.
   */
  lemma HeaderFirst(d: Download, rs: seq<Read>)
    requires rs != [] && rs[0].Data? && rs[0].header > 0
    requires !d.headerset && Waiting(d) && AllPossible(d, rs)
    ensures HeaderAlone(rs[0]) ==> Scan(d, rs).1 == Incomplete
    ensures Scan(d, rs).1 == Fair(FirstPromise(rs[0]), rs)
      <==> !HeaderAlone(rs[0]) || Fair(FirstPromise(rs[0]), rs) == Incomplete
  {
    var (d1, rd) := Take(d, rs[0]);
    assert Promised(d1) == FirstPromise(rs[0]);
    assert Received(rs) >= rs[0].n;
    if !Full(d1) && rd != 0 {
      BodyIsFair(d1, rs[1..]);
    }
  }

  /** The first read has the whole header, and more than the header if more is promised. */
  predicate HeaderInTime(r: Read)
    requires r.Data?
  {
    r.header > 0 && !HeaderAlone(r)
  }

  /**
   Any reads of a new download are judged fairly if and only if there are none, or the first is
   not data, or it has the header in time, or the server does what the download is taken for:
   a header alone counts as closed by the server, and the first part of a header as an error.
   */
  lemma FairIff(d: Download, rs: seq<Read>)
    requires !d.headerset && Waiting(d) && AllPossible(d, rs)
    ensures Scan(d, rs).1 == FairAll(rs) <==>
      || rs == [] || !rs[0].Data? || HeaderInTime(rs[0])
      || FairAll(rs) == if rs[0].header > 0 then Incomplete else Error
  {
    if rs != [] && rs[0].Data? && rs[0].header > 0 {
      HeaderFirst(d, rs);
    }
  }

  /** The first 50 bytes of a header of 100, then the rest of it with the 500 bytes it promises: all
      was received, and the download counts as an error. */
  lemma HeaderSplitFails()
    ensures var d, rs := FRESH.(requestSent := true), [Data(50, 0, 0), Data(550, 100, 500)];
      && Waiting(d) && AllPossible(d, rs) && !HeaderAlone(rs[0])
      && Scan(d, rs).1 == Error && FairAll(rs) == Complete
  {
    var rs := [Data(50, 0, 0), Data(550, 100, 500)];
    assert rs[1..] == [rs[1]] && rs[1..][1..] == [];
    assert Received(rs) == 50 + Received(rs[1..]) == 600;
  }

  /** A header of 100 bytes comes alone and the 500 bytes it promises follow: all was received, and
      the download counts as incomplete. */
  lemma HeaderAloneFails()
    ensures var d, rs := FRESH.(requestSent := true), [Data(100, 100, 500), Data(500, 0, 0)];
      && Waiting(d) && AllPossible(d, rs) && HeaderAlone(rs[0])
      && Scan(d, rs).1 == Incomplete && FairAll(rs) == Complete
  {
    var d, rs := FRESH.(requestSent := true), [Data(100, 100, 500), Data(500, 0, 0)];
    var d1 := Take(d, rs[0]).0;
    assert rs[1..] == [rs[1]] && rs[1..][1..] == [];
    assert AllPossible(d1, rs[1..]);
    HeaderFirst(d, rs);
    assert Received(rs) == 100 + Received(rs[1..]) == 600;
  }

  /** A response without Content-Length is complete with its first read. */
  lemma NoLengthIsComplete(d: Download, rs: seq<Read>)
    requires rs != [] && rs[0].Data? && rs[0].header > 0 && rs[0].length == -1
    requires !d.headerset && Waiting(d) && AllPossible(d, rs)
    ensures Scan(d, rs).1 == Complete
  {
    assert (rs[0].header + TWO64 - 1) % TWO64 == rs[0].header - 1;
  }

  /** However the reads fall into events, a download that stays open goes on where it was. */
  lemma {:induction false} ScanSplits(d: Download, a: seq<Read>, b: seq<Read>)
    requires AllPossible(d, a) && AllPossible(d, a + b)
    requires (forall r | r in a :: r.Data?) && Scan(d, a).1.Open?
    ensures AllPossible(Scan(d, a).0, b) && Scan(d, a + b) == Scan(Scan(d, a).0, b)
    decreases |a|
  {
    if a == [] {
      assert a + b == b;
    } else {
      assert (a + b)[0] == a[0] && (a + b)[1..] == a[1..] + b;
      assert a[0] in a;
      ScanSplits(Take(d, a[0]).0, a[1..], b);
    }
  }

  /** A verdict, once reached, does not depend on reads behind it. */
  lemma {:induction false} ScanStops(d: Download, a: seq<Read>, b: seq<Read>)
    requires AllPossible(d, a + b) && forall r | r in a :: r.Data?
    ensures AllPossible(d, a) && (!Scan(d, a).1.Open? ==> Scan(d, a + b) == Scan(d, a))
    decreases |a|
  {
    if a != [] {
      assert (a + b)[0] == a[0] && (a + b)[1..] == a[1..] + b;
      assert a[0] in a;
      if d.headerset || a[0].header > 0 {
        ScanStops(Take(d, a[0]).0, a[1..], b);
      }
    }
  }

  /** The reads of one event after another. */
  function Flat(bs: seq<seq<Read>>): seq<Read> {
    if bs == [] then [] else bs[0] + Flat(bs[1..])
  }

  predicate EventsPossible(d: Download, bs: seq<seq<Read>>)
    decreases |bs|
  {
    bs == [] ||
    (AllPossible(d, bs[0]) && (Scan(d, bs[0]).1.Open? ==> EventsPossible(Scan(d, bs[0]).0, bs[1..])))
  }

  /** A download over several read events, up to the first verdict. */
  function ScanEvents(d: Download, bs: seq<seq<Read>>): (Download, Verdict)
    requires EventsPossible(d, bs)
    decreases |bs|
  {
    if bs == [] then (d, Open)
    else
      var (d1, verdict) := Scan(d, bs[0]);
      if verdict.Open? then ScanEvents(d1, bs[1..]) else (d1, verdict)
  }

  ghost predicate OnlyData(bs: seq<seq<Read>>) {
    forall b | b in bs :: forall r | r in b :: r.Data?
  }

  /** However data falls into events, the verdict is the same. */
  lemma {:induction false} EventsAreOneScan(d: Download, bs: seq<seq<Read>>)
    requires AllPossible(d, Flat(bs)) && OnlyData(bs)
    ensures EventsPossible(d, bs) && ScanEvents(d, bs).1 == Scan(d, Flat(bs)).1
    decreases |bs|
  {
    hide Scan, AllPossible;
    if bs == [] {
      NoReads(d);
    } else {
      var rest := Flat(bs[1..]);
      assert bs[0] in bs;
      ScanStops(d, bs[0], rest);
      if Scan(d, bs[0]).1.Open? {
        ScanSplits(d, bs[0], rest);
        assert forall b | b in bs[1..] :: b in bs;
        EventsAreOneScan(Scan(d, bs[0]).0, bs[1..]);
      }
    }
  }

  lemma NoReads(d: Download)
    ensures AllPossible(d, []) && Scan(d, []) == (d, Open)
  {
  }

  /** One turn of the read loop. */
  lemma ScanStep(d: Download, rs: seq<Read>, i: nat)
    requires i <= |rs| && AllPossible(d, rs[i..])
    ensures i == |rs| || rs[i].Again? ==> Scan(d, rs[i..]) == (d, Open)
    ensures i < |rs| && rs[i].Failed? ==> Scan(d, rs[i..]) == (d, Error)
    ensures i < |rs| && rs[i].Eof? ==> Scan(d, rs[i..]) == (d, if Full(d) then Complete else Incomplete)
    ensures i < |rs| && rs[i].Data? ==> Possible(d, rs[i])
    ensures i < |rs| && rs[i].Data? && !d.headerset && rs[i].header == 0 ==> Scan(d, rs[i..]) == (d, Error)
    ensures i < |rs| && rs[i].Data? && (d.headerset || rs[i].header > 0) ==>
      var (d1, rd) := Take(d, rs[i]);
      && AllPossible(d1, rs[i + 1..])
      && Scan(d, rs[i..]) ==
         if Full(d1) then (d1, Complete) else if rd == 0 then (d1, Incomplete) else Scan(d1, rs[i + 1..])
  {
    if i < |rs| {
      assert rs[i..][0] == rs[i] && rs[i..][1..] == rs[i + 1..];
    }
  }

  /** The read loop of HandleReadEvent and the tests behind it; reads that were not asked for stay unread. */
  method ReadLoop(d0: Download, rs: seq<Read>) returns (d: Download, verdict: Verdict)
    requires AllPossible(d0, rs) && Waiting(d0)
    ensures (d, verdict) == Scan(d0, rs)
  {
    hide Scan, AllPossible;
    d := d0;
    assert rs[0..] == rs;
    var i, rd := 0, 1;
    while rd > 0
      invariant 0 <= i <= |rs| && rd >= 0
      invariant rd > 0 ==> Waiting(d) && AllPossible(d, rs[i..]) && Scan(d0, rs) == Scan(d, rs[i..])
      invariant rd == 0 ==> !Full(d) && Scan(d0, rs) == (d, Incomplete)
      decreases rd > 0, |rs| - i
    {
      ScanStep(d, rs, i);
      if i == |rs| || rs[i].Again? {
        return d, Open;
      }
      if rs[i].Failed? {
        return d, Error;
      }
      if rs[i].Eof? {
        return d, if Full(d) then Complete else Incomplete;
      }
      rd := rs[i].n;
      if !d.headerset {
        if rs[i].header == 0 {
          return d, Error;
        }
        var respLen := d.respLen + Min(rd, HTTP_HEADER_LEN - d.respLen);
        d := d.(respLen := respLen, headerLen := rs[i].header, fileLen := rs[i].length % TWO64, headerset := true);
        d := d.(recv := d.recv + rd - (respLen - d.headerLen));
        rd := respLen - d.headerLen;
      }
      d := d.(recv := d.recv + rd);
      i := i + 1;
      if Full(d) {
        return d, Complete;
      }
    }
    verdict := Incomplete;
  }

  lemma KeepsRequestSent(d: Download, rs: seq<Read>)
    requires AllPossible(d, rs)
    ensures Scan(d, rs).0.requestSent == d.requestSent
    decreases |rs|
  {
    if rs != [] && rs[0].Data? && (d.headerset || rs[0].header > 0) {
      KeepsRequestSent(Take(d, rs[0]).0, rs[1..]);
    }
  }

  // ----- one thread -----

  datatype Event =
    | ErrorOn(sock: int)
    | Readable(sock: int, rs: seq<Read>)
    | Writable(sock: int)

  class Context {
    const concurrency: nat
    const target: nat
    var started: nat
    var pending: nat
    var done: nat
    var completes: nat
    var errors: nat
    var incompletes: nat
    var stop: bool
    var wvars: map<int, Download>
    /** The events handled so far. */
    ghost var log: seq<Event>

    constructor (target: nat, concurrency: nat)
      ensures Valid() && !stop && started == 0 && this.target == target && this.concurrency == concurrency && log == []
    {
      this.target, this.concurrency := target, concurrency;
      started, pending, done := 0, 0, 0;
      completes, errors, incompletes := 0, 0, 0;
      stop, wvars, log := false, map[], [];
    }

    /** Every connection ever started is open or done; the open ones are those epoll watches. */
    ghost predicate Accounted()
      reads this
    {
      && started == pending + done && started <= target && pending <= concurrency && pending == |wvars|
      && forall s | s in wvars :: Waiting(wvars[s]) && (wvars[s].requestSent || wvars[s] == FRESH)
    }

    ghost predicate Valid()
      reads this
    {
      Accounted() && done == completes + errors + incompletes
    }

    /** CreateConnection. mtcp_socket hands out a socket that is not open, or fails. */
    method CreateConnection() returns (sock: int)
      requires Accounted() && pending < concurrency && started < target
      modifies this`started, this`pending, this`wvars
      ensures Accounted()
      ensures sock < 0 ==> started == old(started) && wvars == old(wvars)
      ensures sock >= 0 ==> started == old(started) + 1 && sock !in old(wvars) && wvars == old(wvars)[sock := FRESH]
    {
      sock := *;
      if sock < 0 || sock in wvars {
        return -1;
      }
      var connected := *;
      if !connected {
        return -1;
      }
      started, pending := started + 1, pending + 1;
      wvars := wvars[sock := FRESH];
    }

    /** The loop that tops up the connections, in CloseConnection and at the head of the main loop. */
    method Refill()
      requires Accounted()
      modifies this`started, this`pending, this`wvars, this`stop
      ensures Accounted() && done == old(done)
      ensures forall s | s in old(wvars) :: s in wvars && wvars[s] == old(wvars)[s]
      ensures forall s | s in wvars && s !in old(wvars) :: wvars[s] == FRESH
      ensures old(stop) ==> stop
      ensures !stop ==> pending == concurrency || started == target
    {
      while pending < concurrency && started < target
        invariant Accounted() && done == old(done) && (old(stop) ==> stop)
        invariant forall s | s in old(wvars) :: s in wvars && wvars[s] == old(wvars)[s]
        invariant forall s | s in wvars && s !in old(wvars) :: wvars[s] == FRESH
        decreases target - started
      {
        var sock := CreateConnection();
        if sock < 0 {
          stop := true;
          break;
        }
      }
    }

    /** The sockets open now are those open before, but for `sock`, and new ones with nothing received. */
    twostate predicate Replaced(sock: int)
      reads this
    {
      && (forall s | s in old(wvars) && s != sock :: s in wvars && wvars[s] == old(wvars)[s])
      && (forall s | s in wvars && (s == sock || s !in old(wvars)) :: wvars[s] == FRESH)
    }

    /** The outcome counters after a verdict on one download. */
    twostate predicate Counted(verdict: Verdict)
      reads this
    {
      && completes == old(completes) + (if verdict.Complete? then 1 else 0)
      && errors == old(errors) + (if verdict.Error? then 1 else 0)
      && incompletes == old(incompletes) + (if verdict.Incomplete? then 1 else 0)
    }

    method CloseConnection(sock: int)
      requires Accounted() && sock in wvars
      modifies this`started, this`pending, this`done, this`wvars, this`stop
      ensures Accounted() && done == old(done) + 1
      ensures Replaced(sock) && (old(stop) ==> stop)
      ensures !stop ==> pending == concurrency || started == target
    {
      var rest := wvars - {sock};
      assert wvars.Keys == rest.Keys + {sock};
      wvars := rest;
      pending, done := pending - 1, done + 1;
      Refill();
    }

    /** DownloadComplete */
    method DownloadComplete(sock: int)
      requires Valid() && sock in wvars
      modifies this`started, this`pending, this`done, this`wvars, this`stop, this`completes
      ensures Valid() && done == old(done) + 1 && completes == old(completes) + 1
      ensures Replaced(sock) && (old(stop) ==> stop)
      ensures !stop ==> pending == concurrency || started == target
    {
      CloseConnection(sock);
      completes := completes + 1;
    }

    /** HandleReadEvent: the verdict on the download is counted, and only a verdict closes it. */
    method HandleReadEvent(sock: int, rs: seq<Read>)
      requires Valid() && sock in wvars && wvars[sock].requestSent && AllPossible(wvars[sock], rs)
      modifies this`started, this`pending, this`done, this`wvars, this`stop, this`completes, this`errors, this`incompletes
      ensures Valid() && (old(stop) ==> stop)
      ensures
        var (d, verdict) := Scan(old(wvars[sock]), rs);
        && Counted(verdict)
        && if verdict.Open? then wvars == old(wvars)[sock := d] && started == old(started)
           else Replaced(sock) && (!stop ==> pending == concurrency || started == target)
    {
      hide Scan, AllPossible, Waiting;
      OpenIsWaiting(wvars[sock], rs);
      var d, verdict := ReadLoop(wvars[sock], rs);
      match verdict {
        case Open =>
          wvars := wvars[sock := d];
        case Complete =>
          DownloadComplete(sock);
        case Incomplete =>
          incompletes := incompletes + 1;
          CloseConnection(sock);
        case Error =>
          errors := errors + 1;
          CloseConnection(sock);
      }
    }

    /** SendHTTPRequest, once for each connection. */
    method SendRequest(sock: int)
      requires Valid() && sock in wvars && !wvars[sock].requestSent
      modifies this`wvars
      ensures Valid() && wvars == old(wvars)[sock := FRESH.(requestSent := true)]
    {
      var d := wvars[sock].(headerset := false, recv := 0, headerLen := 0, fileLen := 0);
      wvars := wvars[sock := d.(requestSent := true)];
    }

    /** epoll reports on open sockets, and on reading only once the request is out. */
    predicate Deliverable(e: Event)
      reads this
    {
      e.sock in wvars && (e.Readable? ==> wvars[e.sock].requestSent && AllPossible(wvars[e.sock], e.rs))
    }

    /** One turn of the event loop: the first writable event of a connection sends the request and
        nothing else; a read event carries the download on; a verdict or an error closes the
        connection, and others take its place. */
    method HandleEvent(e: Event)
      requires Valid() && Deliverable(e)
      modifies this
      ensures Valid() && (old(stop) ==> stop) && log == old(log) + [e]
      ensures
        var (d, verdict) := match e
          case ErrorOn(sock) => (old(wvars)[sock], Error)
          case Readable(sock, rs) => Scan(old(wvars)[sock], rs)
          case Writable(sock) =>
            (if old(wvars)[sock].requestSent then old(wvars)[sock] else FRESH.(requestSent := true), Open);
        && Counted(verdict)
        && if verdict.Open? then wvars == old(wvars)[e.sock := d] && started == old(started)
           else Replaced(e.sock) && (!stop ==> pending == concurrency || started == target)
    {
      hide Scan, AllPossible, Waiting;
      log := log + [e];
      match e {
        case ErrorOn(sock) =>
          errors := errors + 1;
          CloseConnection(sock);
        case Readable(sock, rs) =>
          HandleReadEvent(sock, rs);
        case Writable(sock) =>
          if !wvars[sock].requestSent {
            SendRequest(sock);
          } else {
            assert wvars == wvars[sock := wvars[sock]];
          }
      }
    }

    /** The events of one new connection, one after another: the request goes out, then the reads
        come in until there is a verdict, which is counted. */
    method ServeConnection(sock: int, bs: seq<seq<Read>>)
      requires Valid() && sock in wvars && wvars[sock] == FRESH
      requires EventsPossible(FRESH.(requestSent := true), bs)
      modifies this
      ensures Valid()
      ensures
        var (d, verdict) := ScanEvents(FRESH.(requestSent := true), bs);
        Counted(verdict) && if verdict.Open? then wvars == old(wvars)[sock := d] else Replaced(sock)
    {
      hide Scan, AllPossible, Waiting;
      HandleEvent(Writable(sock));
      ghost var sent := FRESH.(requestSent := true);
      ghost var d := sent;
      assert bs[0..] == bs;
      for i := 0 to |bs|
        invariant Valid() && Counted(Open) && wvars == old(wvars)[sock := d] && d.requestSent
        invariant EventsPossible(d, bs[i..]) && ScanEvents(sent, bs) == ScanEvents(d, bs[i..])
      {
        assert bs[i..][0] == bs[i] && bs[i..][1..] == bs[i + 1..];
        KeepsRequestSent(d, bs[i]);
        ghost var next := Scan(d, bs[i]).0;
        var before := done;
        HandleEvent(Readable(sock, bs[i]));
        if done != before {
          return;
        }
        d := next;
      }
    }

    /** A connection from its first writable event to the last byte promised, however the data falls
        into events, ends as one more completion and nothing else. */
    method CompleteDownload(sock: int, bs: seq<seq<Read>>)
      requires Valid() && sock in wvars && wvars[sock] == FRESH
      requires AllPossible(FRESH.(requestSent := true), Flat(bs)) && OnlyData(bs)
      requires Flat(bs) != [] && Flat(bs)[0].Data? && HeaderInTime(Flat(bs)[0])
      requires Received(Flat(bs)) >= FirstPromise(Flat(bs)[0])
      modifies this
      ensures Valid() && Replaced(sock)
      ensures completes == old(completes) + 1 && errors == old(errors) && incompletes == old(incompletes)
    {
      ghost var sent := FRESH.(requestSent := true);
      HeaderFirst(sent, Flat(bs));
      EventsAreOneScan(sent, bs);
      hide Scan, AllPossible, Waiting, EventsPossible, ScanEvents;
      ServeConnection(sock, bs);
    }

    /**
     RunWgetMain over any answers of epoll_wait, which are events or an error: refill, handle the
     events on open sockets, and leave when every connection of this thread is done.
     */
    method RunWgetMain(answers: seq<Option<seq<Event>>>) returns (finished: bool, waits: nat, ghost skipped: nat)
      requires Valid() && started == 0
      modifies this
      ensures Valid() && waits <= |answers|
      ensures finished ==> done == started == target && pending == 0 && wvars == map[]
      ensures waits == |answers| || finished || stop
      ensures waits > 0 && !finished && !stop ==> done < target
      ensures waits > 0 && answers[waits - 1].None? ==> stop
      ensures waits > 0 && !stop ==> pending == concurrency || started == target
      ensures |log| + skipped == |old(log)| + Events(answers[..waits])
    {
      finished, waits, skipped := false, 0, 0;
      while waits < |answers|
        invariant Valid() && waits <= |answers| && |log| + skipped == |old(log)| + Events(answers[..waits])
        invariant waits > 0 && !stop ==> (pending == concurrency || started == target) && done < target
        invariant waits > 0 && answers[waits - 1].None? ==> stop
        decreases |answers| - waits
      {
        if stop {
          break;
        }
        Refill();
        EventsMore(answers, waits);
        waits := waits + 1;
        if answers[waits - 1].None? {
          stop := true;
          break;
        }
        var skips := HandleEvents(answers[waits - 1].value);
        skipped := skipped + skips;
        if done >= target {
          return true, waits, skipped;
        }
      }
    }

    /** The events of one wait; those on sockets that are no longer open are skipped. */
    method HandleEvents(events: seq<Event>) returns (ghost skipped: nat)
      requires Valid() && (!stop ==> pending == concurrency || started == target)
      modifies this
      ensures Valid() && (old(stop) ==> stop) && (!stop ==> pending == concurrency || started == target)
      ensures |log| + skipped == |old(log)| + |events|
    {
      hide Scan, AllPossible, Waiting;
      skipped := 0;
      for i := 0 to |events|
        invariant Valid() && (old(stop) ==> stop) && (!stop ==> pending == concurrency || started == target)
        invariant |log| + skipped == |old(log)| + i
      {
        if Deliverable(events[i]) {
          HandleEvent(events[i]);
        } else {
          skipped := skipped + 1;
        }
      }
    }
  }

  /** How many events there are in the answers of epoll_wait. */
  function Events(answers: seq<Option<seq<Event>>>): nat {
    if answers == [] then 0
    else
      var last := answers[|answers| - 1];
      Events(answers[..|answers| - 1]) + (if last.Some? then |last.value| else 0)
  }

  lemma EventsMore(answers: seq<Option<seq<Event>>>, n: nat)
    requires n < |answers|
    ensures Events(answers[..n + 1]) == Events(answers[..n]) + (if answers[n].Some? then |answers[n].value| else 0)
  {
    assert answers[..n + 1][..n] == answers[..n];
  }

  // ----- the threads -----

  /** Thread `i`'s part when `total` flows are dealt out to `n` threads in turn. */
  function Part(total: nat, n: nat, i: nat): nat
    requires n > 0
  {
    total / n + if i < total % n then 1 else 0
  }

  /** The flows of the threads that one process starts; with `processCpu` set it starts only that one. */
  method DealFlows(totalFlows: nat, coreLimit: nat, processCpu: int) returns (flows: seq<nat>)
    requires 0 < coreLimit <= totalFlows && -1 <= processCpu
    ensures |flows| == coreLimit
    ensures processCpu == -1 ==> forall i | 0 <= i < coreLimit :: flows[i] == Part(totalFlows, coreLimit, i)
    ensures processCpu != -1 ==> forall i | 0 <= i < coreLimit ::
      flows[i] == if i == processCpu then Part(totalFlows, coreLimit, 0) else 0
  {
    var flowPerThread: nat := totalFlows / coreLimit;
    var remainder: int := totalFlows % coreLimit;
    flows := seq(coreLimit, _ => 0);
    var start := if processCpu == -1 then 0 else processCpu;
    var i := start;
    while i < coreLimit
      invariant start <= i && |flows| == coreLimit && (processCpu != -1 ==> i == start)
      invariant remainder == totalFlows % coreLimit - (i - start)
      invariant forall k | 0 <= k < coreLimit ::
        flows[k] == if k < i && processCpu == -1 then Part(totalFlows, coreLimit, k) else 0
    {
      flows := flows[i := flowPerThread];
      remainder := remainder - 1;
      if remainder + 1 > 0 {
        flows := flows[i := flows[i] + 1];
      }
      if processCpu != -1 {
        break;
      }
      i := i + 1;
    }
  }

  lemma {:induction false} PartsSum(flows: seq<nat>, total: nat, n: nat, k: nat)
    requires n > 0 && k <= |flows| && forall i | 0 <= i < k :: flows[i] == Part(total, n, i)
    ensures Sum(flows[..k]) == k * (total / n) + Min(k, total % n)
  {
    if k > 0 {
      PartsSum(flows, total, n, k - 1);
      assert flows[..k][..k - 1] == flows[..k - 1];
      Succ(k, total / n);
    }
  }

  lemma Succ(k: nat, q: nat)
    requires k > 0
    ensures k * q == (k - 1) * q + q
  {
  }

  /** All flows are dealt out, none twice, and no thread gets two more than another. */
  lemma FlowsAreDealt(flows: seq<nat>, total: nat)
    requires 0 < |flows| <= total && forall i | 0 <= i < |flows| :: flows[i] == Part(total, |flows|, i)
    ensures Sum(flows) == total
    ensures forall i, j | 0 <= i < |flows| && 0 <= j < |flows| :: flows[i] <= flows[j] + 1
    ensures forall i | 0 <= i < |flows| :: flows[i] > 0
  {
    PartsSum(flows, total, |flows|, |flows|);
    assert flows[..|flows|] == flows;
    Divided(total, |flows|);
  }

  lemma Divided(total: nat, n: nat)
    requires 0 < n
    ensures total == n * (total / n) + total % n
    ensures n <= total ==> total / n > 0
  {
  }

  /** Three flows on two cores: each of two processes starts two. */
  lemma ProcessesOverdeal()
    ensures 2 * Part(3, 2, 0) == 4
  {
  }

  /** One process for each core adds up to the total exactly when the cores divide it. */
  lemma ProcessesDealIff(total: nat, n: nat)
    requires 0 < n <= total
    ensures n * Part(total, n, 0) == total <==> total % n == 0
  {
    Divided(total, n);
    assert n * (total / n + 1) == n * (total / n) + n;
  }
}
