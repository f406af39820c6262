/**
 The receive buffer of a TCP stream: out-of-order segments are copied into one
 contiguous chunk of memory, a list of fragments records which sequence ranges have
 arrived, and the application reads the merged prefix.

 Sequence numbers are unsigned 32-bit values that wrap around.
 */
module TcpReassembly {
  import opened Common

  const SEQ_SPACE: nat := 0x1_0000_0000
  const MAX_SEQ: nat := 0xFFFF_FFFF
  const HALF: nat := 0x8000_0000

  datatype Fragment = Fragment(seqno: nat, len: nat)

  function Max(a: nat, b: nat): nat { if a <= b then b else a }

  // ----- 32-bit sequence arithmetic -----

  /** The C expression `a + n` on uint32_t. */
  function SeqAdd(a: nat, n: nat): (r: nat)
    requires a < SEQ_SPACE && n < SEQ_SPACE
    ensures r < SEQ_SPACE
  {
    if a + n < SEQ_SPACE then a + n else a + n - SEQ_SPACE
  }

  /** The distance from `a` forward to `b`: the C expression `b - a` on uint32_t. */
  function SeqSub(b: nat, a: nat): (r: nat)
    requires a < SEQ_SPACE && b < SEQ_SPACE
    ensures r < SEQ_SPACE && SeqAdd(a, r) == b
  {
    if a <= b then b - a else b + SEQ_SPACE - a
  }

  function GetMinSeq(a: nat, b: nat): nat
    requires a < SEQ_SPACE && b < SEQ_SPACE
  {
    if a == b then a
    else if a < b then (if b - a <= MAX_SEQ / 2 then a else b)
    else (if a - b <= MAX_SEQ / 2 then b else a)
  }

  function GetMaxSeq(a: nat, b: nat): nat
    requires a < SEQ_SPACE && b < SEQ_SPACE
  {
    if a == b then a
    else if a < b then (if b - a <= MAX_SEQ / 2 then b else a)
    else (if a - b <= MAX_SEQ / 2 then a else b)
  }

  lemma AddAdd(h: nat, x: nat, y: nat)
    requires h < SEQ_SPACE && x + y < SEQ_SPACE
    ensures SeqAdd(SeqAdd(h, x), y) == SeqAdd(h, x + y)
  {
  }

  lemma Distance(h: nat, x: nat, y: nat)
    requires h < SEQ_SPACE && x <= y < SEQ_SPACE
    ensures SeqSub(SeqAdd(h, x), h) == x
    ensures SeqSub(SeqAdd(h, y), SeqAdd(h, x)) == y - x
  {
  }

  /** Within half the sequence space of a common base, the wrapped comparisons order
      values as their distances from the base do. */
  lemma MinMaxSeqIsOrder(h: nat, x: nat, y: nat)
    requires h < SEQ_SPACE && x < HALF && y < HALF
    ensures GetMinSeq(SeqAdd(h, x), SeqAdd(h, y)) == SeqAdd(h, if x <= y then x else y)
    ensures GetMaxSeq(SeqAdd(h, x), SeqAdd(h, y)) == SeqAdd(h, if x <= y then y else x)
    ensures SeqAdd(h, x) == SeqAdd(h, y) <==> x == y
  {
  }

  /** Exactly which sequence numbers the drop test of RBPut keeps: those less than half the
      space ahead of the head, and the one half the space away when it is numerically smaller. */
  lemma DropTestExact(h: nat, c: nat)
    requires h < SEQ_SPACE && c < SEQ_SPACE
    ensures GetMinSeq(h, c) == h <==> SeqSub(c, h) < HALF || (SeqSub(c, h) == HALF && c < h)
  {
  }

  /** Half the space apart, number 0 is kept behind the head 2^31, and 2^31 is dropped at the head 0. */
  lemma DropTestAsymmetric()
    ensures GetMinSeq(HALF, 0) == HALF && GetMinSeq(0, HALF) != 0
  {
  }

  // ----- fragments relative to the head of the buffer -----

  predicate CanMerge(a: Fragment, b: Fragment)
    requires a.seqno < SEQ_SPACE && b.seqno < SEQ_SPACE && a.len < HALF && b.len < HALF
  {
    var aEnd := SeqAdd(a.seqno, a.len + 1);
    var bEnd := SeqAdd(b.seqno, b.len + 1);
    !(GetMinSeq(aEnd, b.seqno) == aEnd || GetMinSeq(bEnd, a.seqno) == bEnd)
  }

  function MergeFragments(a: Fragment, b: Fragment): (m: Fragment)
    requires a.seqno < SEQ_SPACE && b.seqno < SEQ_SPACE && a.len < HALF && b.len < HALF
    ensures m.seqno < SEQ_SPACE
  {
    var minSeq := GetMinSeq(a.seqno, b.seqno);
    var maxSeq := GetMaxSeq(SeqAdd(a.seqno, a.len), SeqAdd(b.seqno, b.len));
    Fragment(minSeq, SeqSub(maxSeq, minSeq))
  }

  /** First and one-past-last offset of a fragment, counted from sequence number `h`. */
  function Lo(h: nat, f: Fragment): nat
    requires h < SEQ_SPACE && f.seqno < SEQ_SPACE
  {
    SeqSub(f.seqno, h)
  }

  function Hi(h: nat, f: Fragment): nat
    requires h < SEQ_SPACE && f.seqno < SEQ_SPACE
  {
    Lo(h, f) + f.len
  }

  ghost predicate InWindow(h: nat, f: Fragment, size: nat) {
    h < SEQ_SPACE && f.seqno < SEQ_SPACE && f.len > 0 && Hi(h, f) <= size < HALF - 1
  }

  /** Offset `k` from sequence number `h` lies in the fragment, in one of the fragments. */
  ghost predicate Holds(h: nat, f: Fragment, k: nat) {
    h < SEQ_SPACE && f.seqno < SEQ_SPACE && Lo(h, f) <= k < Hi(h, f)
  }

  ghost predicate Covers(h: nat, fs: seq<Fragment>, k: nat) {
    exists f :: f in fs && Holds(h, f, k)
  }

  /** The canonical form of a set of offsets: non-empty ranges inside the window, in
      order, with a gap of at least one byte between neighbours. */
  ghost predicate Canonical(h: nat, fs: seq<Fragment>, size: nat) {
    && h < SEQ_SPACE
    && (forall i | 0 <= i < |fs| :: InWindow(h, fs[i], size))
    && (forall i, j | 0 <= i < j < |fs| :: Hi(h, fs[i]) < Lo(h, fs[j]))
  }

  /** CanMerge is overlap-or-touch of ranges. */
  lemma CanMergeIsTouch(h: nat, a: Fragment, b: Fragment, size: nat)
    requires InWindow(h, a, size) && InWindow(h, b, size)
    ensures CanMerge(a, b) <==> Lo(h, b) <= Hi(h, a) && Lo(h, a) <= Hi(h, b)
  {
    AddAdd(h, Lo(h, a), a.len + 1);
    AddAdd(h, Lo(h, b), b.len + 1);
    MinMaxSeqIsOrder(h, Hi(h, a) + 1, Lo(h, b));
    MinMaxSeqIsOrder(h, Hi(h, b) + 1, Lo(h, a));
  }

  /** MergeFragments is the union of two ranges that overlap or touch. */
  lemma MergeIsUnion(h: nat, a: Fragment, b: Fragment, size: nat)
    requires InWindow(h, a, size) && InWindow(h, b, size)
    ensures var m := MergeFragments(a, b);
      && InWindow(h, m, size)
      && Lo(h, m) == Min(Lo(h, a), Lo(h, b))
      && Hi(h, m) == Max(Hi(h, a), Hi(h, b))
  {
    hide GetMinSeq, GetMaxSeq, SeqAdd, SeqSub;
    AddAdd(h, Lo(h, a), a.len);
    AddAdd(h, Lo(h, b), b.len);
    MinMaxSeqIsOrder(h, Lo(h, a), Lo(h, b));
    MinMaxSeqIsOrder(h, Hi(h, a), Hi(h, b));
    var lo, hi := Min(Lo(h, a), Lo(h, b)), Max(Hi(h, a), Hi(h, b));
    Distance(h, lo, hi);
    assert MergeFragments(a, b) == Fragment(SeqAdd(h, lo), hi - lo);
  }

  lemma MergeCovers(h: nat, a: Fragment, b: Fragment, size: nat)
    requires InWindow(h, a, size) && InWindow(h, b, size) && CanMerge(a, b)
    ensures forall k :: Holds(h, MergeFragments(a, b), k) <==> Holds(h, a, k) || Holds(h, b, k)
  {
    hide CanMerge, MergeFragments, SeqAdd, SeqSub;
    CanMergeIsTouch(h, a, b, size);
    MergeIsUnion(h, a, b, size);
  }

  lemma SpliceCovers(h: nat, fs: seq<Fragment>, m: nat, f: Fragment, i: nat, cur: Fragment)
    requires m <= i <= |fs|
    requires forall k :: Holds(h, f, k) <==> Holds(h, cur, k) || Covers(h, fs[m..i], k)
    ensures forall k :: Covers(h, fs[..m] + [f] + fs[i..], k) <==> Covers(h, fs, k) || Holds(h, cur, k)
  {
    hide Holds;
    var out := fs[..m] + [f] + fs[i..];
    assert fs == fs[..m] + fs[m..i] + fs[i..];
    forall k ensures Covers(h, out, k) <==> Covers(h, fs, k) || Holds(h, cur, k) {
      if Covers(h, fs, k) && !Covers(h, fs[m..i], k) {
        var g :| g in fs && Holds(h, g, k);
        assert g in fs[..m] || g in fs[i..];
        assert g in out;
      }
      if Holds(h, f, k) {
        assert f in out;
      }
      if Covers(h, fs[m..i], k) {
        var g :| g in fs[m..i] && Holds(h, g, k);
        assert g in fs;
      }
      if Covers(h, out, k) && !Holds(h, f, k) {
        var g :| g in out && Holds(h, g, k);
        assert g in fs;
      }
    }
  }

  lemma SpliceCanonical(h: nat, size: nat, fs: seq<Fragment>, m: nat, f: Fragment, i: nat)
    requires Canonical(h, fs, size) && InWindow(h, f, size) && m <= i <= |fs|
    requires forall j | 0 <= j < m :: Hi(h, fs[j]) < Lo(h, f)
    requires forall j | i <= j < |fs| :: Hi(h, f) < Lo(h, fs[j])
    ensures Canonical(h, fs[..m] + [f] + fs[i..], size)
  {
    hide Lo;
    var out := fs[..m] + [f] + fs[i..];
    assert forall j | 0 <= j < |out| ::
        out[j] == if j < m then fs[j] else if j == m then f else fs[j - m - 1 + i];
  }

  lemma CoversExtend(h: nat, fs: seq<Fragment>, m: nat, i: nat)
    requires m <= i < |fs|
    ensures forall k :: Covers(h, fs[m..i + 1], k) <==> Covers(h, fs[m..i], k) || Holds(h, fs[i], k)
    ensures m == i ==> forall k :: !Covers(h, fs[m..i], k)
  {
    hide Holds;
    assert fs[m..i + 1] == fs[m..i] + [fs[i]];
  }

  /** The three comparisons RBPut makes on fragments that do not merge. */
  lemma OrderTests(h: nat, a: Fragment, b: Fragment, size: nat)
    requires InWindow(h, a, size) && InWindow(h, b, size)
    ensures GetMaxSeq(SeqAdd(a.seqno, a.len), b.seqno) == b.seqno <==> Hi(h, a) <= Lo(h, b)
    ensures GetMinSeq(a.seqno, b.seqno) == a.seqno <==> Lo(h, a) <= Lo(h, b)
    ensures GetMinSeq(a.seqno, SeqAdd(b.seqno, b.len)) == SeqAdd(b.seqno, b.len) <==> Hi(h, b) <= Lo(h, a)
  {
    hide GetMinSeq, GetMaxSeq, SeqAdd, SeqSub;
    AddAdd(h, Lo(h, a), a.len);
    AddAdd(h, Lo(h, b), b.len);
    MinMaxSeqIsOrder(h, Hi(h, a), Lo(h, b));
    MinMaxSeqIsOrder(h, Lo(h, a), Lo(h, b));
    MinMaxSeqIsOrder(h, Lo(h, a), Hi(h, b));
  }

  lemma NothingCovered(h: nat, fs: seq<Fragment>)
    requires fs == []
    ensures forall k :: !Covers(h, fs, k)
  {
  }

  /** The loop of RBPut over the fragment list: fragments m..i were merged into `nf`, those in
      front of them end before it, and those behind start after it. Fragment `fs[j]` is kept in
      context `ctxs[j]`, the new one in `ctx`; each merge frees the context merged from. */
  method WalkFragments(ghost h: nat, ghost size: nat, fs: seq<Fragment>, cur: Fragment, ctxs: seq<nat>, ctx: nat)
    returns (nf: Fragment, merged: bool, m: nat, i: nat, last: nat, freed: seq<nat>)
    requires Canonical(h, fs, size) && InWindow(h, cur, size) && |ctxs| == |fs|
    ensures m <= i <= |fs| && InWindow(h, nf, size) && (!merged ==> nf == cur && m == i)
    ensures forall j | 0 <= j < m :: Hi(h, fs[j]) < Lo(h, nf)
    ensures forall j | i <= j < |fs| :: Hi(h, nf) < Lo(h, fs[j])
    ensures forall k :: Holds(h, nf, k) <==> Holds(h, cur, k) || Covers(h, fs[m..i], k)
    ensures SameContexts(freed + [last], ctxs[m..i] + [ctx])
  {
    hide SameContexts, CanMerge, MergeFragments, GetMinSeq, GetMaxSeq, SeqAdd, SeqSub, Covers, Lo, Holds;
    nf, merged, m, i := cur, false, 0, 0;
    last, freed := ctx, [];
    while i < |fs|
      invariant 0 <= m <= i <= |fs| && InWindow(h, nf, size)
      invariant !merged ==> nf == cur && forall j | 0 <= j < i :: Hi(h, fs[j]) < Lo(h, cur)
      invariant merged ==> m < i && Lo(h, nf) <= Lo(h, fs[i - 1])
      invariant merged ==> forall j | 0 <= j < m :: Hi(h, fs[j]) < Lo(h, nf)
      invariant merged ==> forall k :: Holds(h, nf, k) <==> Holds(h, cur, k) || Covers(h, fs[m..i], k)
      invariant !merged ==> last == ctx && freed == []
      invariant merged ==> SameContexts(freed + [last], ctxs[m..i] + [ctx])
    {
      CanMergeIsTouch(h, nf, fs[i], size);
      OrderTests(h, cur, fs[i], size);
      if CanMerge(nf, fs[i]) {
        MergeIsUnion(h, nf, fs[i], size);
        MergeCovers(h, nf, fs[i], size);
        if !merged { m := i; }
        CoversExtend(h, fs, m, i);
        NextContext(freed, last, ctxs, m, i, ctx);
        freed, last := freed + [last], ctxs[i];
        nf, merged := MergeFragments(nf, fs[i]), true;
      } else if merged || GetMaxSeq(SeqAdd(cur.seqno, cur.len), fs[i].seqno) == fs[i].seqno {
        break;
      }
      i := i + 1;
    }
    if !merged {
      m := i;
      NothingCovered(h, fs[m..i]);
      NoContextFreed(ctxs, m, ctx);
    }
  }

  /** The same contexts, in any order. */
  ghost predicate SameContexts(a: seq<nat>, b: seq<nat>) {
    multiset(a) == multiset(b)
  }

  lemma NextContext(freed: seq<nat>, last: nat, ctxs: seq<nat>, m: nat, i: nat, ctx: nat)
    requires m <= i < |ctxs|
    requires (m == i && freed == [] && last == ctx) || SameContexts(freed + [last], ctxs[m..i] + [ctx])
    ensures SameContexts(freed + [last] + [ctxs[i]], ctxs[m..i + 1] + [ctx])
  {
    assert ctxs[m..i + 1] == ctxs[m..i] + [ctxs[i]];
    assert multiset(freed + [last]) == multiset(ctxs[m..i] + [ctx]);
  }

  lemma NoContextFreed(ctxs: seq<nat>, m: nat, ctx: nat)
    requires m <= |ctxs|
    ensures SameContexts([] + [ctx], ctxs[m..m] + [ctx])
  {
    assert ctxs[m..m] == [];
  }

  lemma SpliceContexts(ctxs: seq<nat>, ctx: nat, m: nat, i: nat, last: nat, freed: seq<nat>)
    requires m <= i <= |ctxs| && SameContexts(freed + [last], ctxs[m..i] + [ctx])
    ensures SameContexts(ctxs[..m] + [last] + ctxs[i..] + freed, ctxs + [ctx])
  {
    var a, b, c := ctxs[..m], ctxs[m..i], ctxs[i..];
    assert ctxs + [ctx] == a + (b + (c + [ctx]));
    Regroup(a, c, freed, last, b, ctx);
  }

  lemma Regroup(a: seq<nat>, c: seq<nat>, freed: seq<nat>, last: nat, b: seq<nat>, ctx: nat)
    requires multiset(freed + [last]) == multiset(b + [ctx])
    ensures multiset(a + [last] + c + freed) == multiset(a + (b + (c + [ctx])))
  {
    assert multiset(a + [last] + c + freed) == multiset(a) + multiset(c) + multiset(freed + [last]);
    assert multiset(a + (b + (c + [ctx]))) == multiset(a) + multiset(c) + multiset(b + [ctx]);
  }

  /** The fragment list of RBPut after the walk. Whatever order segments arrive in, the result
      is the canonical list of what was covered before plus the new range. Every context that
      was listed, and the new one, is listed or freed, once. */
  method InsertFragment(ghost h: nat, ghost size: nat, fs: seq<Fragment>, cur: Fragment, ctxs: seq<nat>, ctx: nat)
    returns (out: seq<Fragment>, outCtxs: seq<nat>, freed: seq<nat>)
    requires Canonical(h, fs, size) && InWindow(h, cur, size) && |ctxs| == |fs|
    ensures Canonical(h, out, size) && out != []
    ensures forall k :: Covers(h, out, k) <==> Covers(h, fs, k) || Holds(h, cur, k)
    ensures |outCtxs| == |out| && SameContexts(outCtxs + freed, ctxs + [ctx])
  {
    hide SameContexts, GetMinSeq, GetMaxSeq, SeqAdd, SeqSub, Covers, Lo, Holds;
    var nf, merged, m, i, last;
    nf, merged, m, i, last, freed := WalkFragments(h, size, fs, cur, ctxs, ctx);
    SpliceContexts(ctxs, ctx, m, i, last, freed);
    outCtxs := ctxs[..m] + [last] + ctxs[i..];
    SpliceCanonical(h, size, fs, m, nf, i);
    SpliceCovers(h, fs, m, nf, i, cur);
    if merged {
      out := fs[..m] + [nf] + fs[i..];
    } else if fs == [] {
      out := [nf];
    } else {
      OrderTests(h, cur, fs[0], size);
      if GetMinSeq(cur.seqno, fs[0].seqno) == cur.seqno {
        out := [nf] + fs;
      } else {
        OrderTests(h, cur, fs[i - 1], size);
        assert GetMinSeq(cur.seqno, SeqAdd(fs[i - 1].seqno, fs[i - 1].len)) == SeqAdd(fs[i - 1].seqno, fs[i - 1].len);
        out := fs[..i] + [nf] + fs[i..];
      }
    }
    assert out == fs[..m] + [nf] + fs[i..];
  }

  /** The head byte has arrived exactly when the first fragment starts at the head. */
  lemma HeadCovered(h: nat, fs: seq<Fragment>, size: nat)
    requires Canonical(h, fs, size)
    ensures Covers(h, fs, 0) <==> fs != [] && fs[0].seqno == h
    ensures fs != [] && fs[0].seqno == h ==> Hi(h, fs[0]) == fs[0].len < HALF
    ensures MergedLen(h, fs) < HALF && (MergedLen(h, fs) > 0 ==> fs != [] && fs[0].seqno == h && fs[0].len == MergedLen(h, fs))
  {
    if fs != [] && fs[0].seqno == h {
      assert fs[0] in fs && Holds(h, fs[0], 0);
    }
  }

  /** No fragment reaches past offset `bound`. */
  ghost predicate EndsBy(h: nat, fs: seq<Fragment>, bound: nat)
    requires h < SEQ_SPACE
  {
    forall f | f in fs :: f.seqno < SEQ_SPACE && Hi(h, f) <= bound
  }

  lemma EndsByMore(h: nat, fs: seq<Fragment>, bound: nat, more: nat)
    requires h < SEQ_SPACE && EndsBy(h, fs, bound) && bound <= more
    ensures EndsBy(h, fs, more)
  {
  }

  /** The length of the fragment at the head, if there is one. */
  function MergedLen(h: nat, fs: seq<Fragment>): nat {
    if fs != [] && fs[0].seqno == h then fs[0].len else 0
  }

  lemma MergedEndsBy(h: nat, fs: seq<Fragment>, size: nat, bound: nat)
    requires Canonical(h, fs, size) && EndsBy(h, fs, bound)
    ensures MergedLen(h, fs) <= bound
  {
    HeadCovered(h, fs, size);
  }

  lemma EndsBoundCover(h: nat, fs: seq<Fragment>, size: nat, bound: nat)
    requires Canonical(h, fs, size) && EndsBy(h, fs, bound)
    ensures forall k: nat | Covers(h, fs, k) :: k < bound
  {
  }

  lemma CoverBoundsEnds(h: nat, fs: seq<Fragment>, size: nat, bound: nat)
    requires Canonical(h, fs, size)
    requires forall k: nat | Covers(h, fs, k) :: k < bound
    ensures EndsBy(h, fs, bound)
  {
    hide Lo;
    forall f | f in fs ensures Hi(h, f) <= bound {
      assert Holds(h, f, Hi(h, f) - 1);
      assert Covers(h, fs, Hi(h, f) - 1);
    }
  }

  /** What is left of the fragment list after the first `n` merged bytes are read. */
  function Advance(fs: seq<Fragment>, n: nat): seq<Fragment>
    requires fs != [] && fs[0].seqno < SEQ_SPACE && n <= fs[0].len < SEQ_SPACE
  {
    if n == fs[0].len then fs[1..]
    else [Fragment(SeqAdd(fs[0].seqno, n), fs[0].len - n)] + fs[1..]
  }

  lemma Rebase(h: nat, f: Fragment, n: nat, size: nat)
    requires InWindow(h, f, size) && n <= Lo(h, f)
    ensures InWindow(SeqAdd(h, n), f, size) && Lo(SeqAdd(h, n), f) == Lo(h, f) - n
  {
  }

  /** Moving the head forward over read bytes shifts every offset and keeps the list canonical. */
  lemma AdvanceShifts(h: nat, fs: seq<Fragment>, n: nat, size: nat)
    requires Canonical(h, fs, size) && fs != [] && fs[0].seqno == h && n <= fs[0].len
    ensures Canonical(SeqAdd(h, n), Advance(fs, n), size)
    ensures forall k: nat :: Covers(SeqAdd(h, n), Advance(fs, n), k) <==> Covers(h, fs, k + n)
  {
    var h', fs' := SeqAdd(h, n), Advance(fs, n);
    forall i | 1 <= i < |fs|
      ensures InWindow(h', fs[i], size) && Lo(h', fs[i]) == Lo(h, fs[i]) - n > fs[0].len - n
    {
      assert Hi(h, fs[0]) < Lo(h, fs[i]);
      Rebase(h, fs[i], n, size);
    }
    if n < fs[0].len {
      var g := Fragment(SeqAdd(h, n), fs[0].len - n);
      assert InWindow(h', g, size) && Lo(h', g) == 0;
    }
    ShiftCovers(h, fs, h', fs', n);
  }

  lemma ShiftCovers(h: nat, fs: seq<Fragment>, h': nat, fs': seq<Fragment>, n: nat)
    requires fs != [] && fs[0].seqno == h < SEQ_SPACE && h' < SEQ_SPACE && n <= fs[0].len
    requires forall i | 0 <= i < |fs| :: fs[i].seqno < SEQ_SPACE
    requires forall i | 1 <= i < |fs| :: Lo(h', fs[i]) == Lo(h, fs[i]) - n
    requires if n == fs[0].len then fs' == fs[1..] else fs' == [Fragment(h', fs[0].len - n)] + fs[1..]
    ensures forall k: nat :: Covers(h', fs', k) <==> Covers(h, fs, k + n)
  {
    forall k: nat ensures Covers(h', fs', k) <==> Covers(h, fs, k + n) {
      if Covers(h', fs', k) {
        var g :| g in fs' && Holds(h', g, k);
        if g in fs[1..] {
          assert Holds(h, g, k + n);
        } else {
          assert Holds(h, fs[0], k + n);
        }
      }
      if Covers(h, fs, k + n) {
        var i :| 0 <= i < |fs| && Holds(h, fs[i], k + n);
        if i == 0 {
          assert Holds(h', fs'[0], k);
        } else {
          assert fs[i] == fs[1..][i - 1] && Holds(h', fs[i], k);
        }
      }
    }
  }

  /** The sequence number of stream offset `off`, for a stream that starts at `init`. */
  function Wire(init: nat, off: nat): (w: nat)
    requires init < SEQ_SPACE
    ensures w < SEQ_SPACE
  {
    SeqAdd(init, off % SEQ_SPACE)
  }

  lemma WrapAdd(init: nat, base: nat, n: nat)
    requires init < SEQ_SPACE && n < SEQ_SPACE
    ensures SeqAdd(Wire(init, base), n) == Wire(init, base + n)
  {
  }

  /** Less than half the space apart, the drop test sees which offset is first, and the unsigned
      difference is the distance: any number of laps into the stream. */
  lemma WireOrder(init: nat, base: nat, off: nat)
    requires init < SEQ_SPACE && off < base + HALF && base < off + HALF
    ensures GetMinSeq(Wire(init, base), Wire(init, off)) == Wire(init, base) <==> base <= off
    ensures base <= off ==> SeqSub(Wire(init, off), Wire(init, base)) == off - base
  {
    hide Wire, GetMinSeq, SeqAdd, SeqSub;
    if base <= off {
      var x := off - base;
      WrapAdd(init, base, x);
      Distance(Wire(init, base), 0, x);
      AddZero(Wire(init, base));
      MinMaxSeqIsOrder(Wire(init, base), 0, x);
    } else {
      var x := base - off;
      WrapAdd(init, off, x);
      AddZero(Wire(init, off));
      MinMaxSeqIsOrder(Wire(init, off), x, 0);
    }
  }

  lemma AddZero(h: nat)
    requires h < SEQ_SPACE
    ensures SeqAdd(h, 0) == h
  {
  }

  // ----- what the buffer means: offsets of the peer's byte stream -----

  /** `base` bytes have been read; `got` holds the bytes that have arrived since. */
  datatype Rx = Rx(base: nat, got: map<nat, Byte>)

  function Placed(off: nat, payload: seq<Byte>): (m: map<nat, Byte>)
    ensures forall k :: k in m <==> off <= k < off + |payload|
    ensures forall k | k in m :: m[k] == payload[k - off]
  {
    if payload == [] then map[]
    else
      var n := |payload| - 1;
      Placed(off, payload[..n])[off + n := payload[n]]
  }

  /** A segment is stored when it is not empty, does not start before the read point
      and fits in the buffer. Otherwise nothing changes. */
  predicate Accepts(rx: Rx, size: nat, off: nat, payload: seq<Byte>) {
    payload != [] && rx.base <= off && off + |payload| <= rx.base + size
  }

  function StreamPut(rx: Rx, size: nat, off: nat, payload: seq<Byte>): (r: Rx)
    ensures r.base == rx.base
  {
    if Accepts(rx, size, off, payload) then Rx(rx.base, rx.got + Placed(off, payload)) else rx
  }

  /** `n` is the length of the longest run of bytes that can be read now. */
  ghost predicate Readable(rx: Rx, n: nat) {
    && (forall k: nat | rx.base <= k < rx.base + n :: k in rx.got)
    && rx.base + n !in rx.got
  }

  lemma ReadableShorter(rx: Rx, n: nat, m: nat)
    requires Readable(rx, n) && m <= n
    ensures forall k: nat | rx.base <= k < rx.base + m :: k in rx.got
  {
  }

  lemma ReadableUnique(rx: Rx, n: nat, m: nat)
    requires Readable(rx, n) && Readable(rx, m)
    ensures n == m
  {
    assert rx.base + n !in rx.got && rx.base + m !in rx.got;
  }

  function StreamFront(rx: Rx, n: nat): seq<Byte>
    requires forall k: nat | rx.base <= k < rx.base + n :: k in rx.got
  {
    seq(n, i requires 0 <= i < n => rx.got[rx.base + i])
  }

  function StreamDrop(rx: Rx, n: nat): (r: Rx)
    ensures r.base == rx.base + n
  {
    Rx(rx.base + n, map k | k in rx.got && k >= rx.base + n :: rx.got[k])
  }

  /** The `len` bytes of memory from `at` on hold the bytes of the stream that have arrived. */
  ghost predicate StoredIn(mem: seq<Byte>, at: nat, len: nat, rx: Rx) {
    && at + len <= |mem|
    && (forall k | k in rx.got :: rx.base <= k < rx.base + len && mem[at + (k - rx.base)] == rx.got[k])
  }

  ghost predicate Overwritten(mem: seq<Byte>, mem': seq<Byte>, at: nat, payload: seq<Byte>) {
    && at + |payload| <= |mem| == |mem'|
    && forall j | 0 <= j < |mem| :: mem'[j] == if at <= j < at + |payload| then payload[j - at] else mem[j]
  }

  /** Writing a segment at its place adds it to the stream and disturbs nothing else. */
  lemma WriteStores(mem: seq<Byte>, mem': seq<Byte>, at: nat, len: nat, len': nat,
                    rx: Rx, size: nat, putx: nat, payload: seq<Byte>)
    requires StoredIn(mem, at, len, rx)
    requires payload != [] && putx + |payload| <= size
    requires len' == Max(len, putx + |payload|) && at + len' <= |mem'| == |mem|
    requires Overwritten(mem, mem', at + putx, payload)
    ensures StoredIn(mem', at, len', StreamPut(rx, size, rx.base + putx, payload))
  {
  }

  lemma MoveStores(mem: seq<Byte>, mem': seq<Byte>, at: nat, len: nat, rx: Rx)
    requires StoredIn(mem, at, len, rx) && at + len <= |mem| == |mem'|
    requires mem'[..len] == mem[at..at + len]
    ensures StoredIn(mem', 0, len, rx)
  {
    assert forall i | 0 <= i < len :: mem'[..len][i] == mem[at..at + len][i];
  }

  /** Reading the first `n` bytes yields the stream and leaves the rest stored. */
  lemma DropStores(mem: seq<Byte>, at: nat, len: nat, rx: Rx, n: nat)
    requires StoredIn(mem, at, len, rx) && n <= len
    requires forall k: nat | rx.base <= k < rx.base + n :: k in rx.got
    ensures mem[at..at + n] == StreamFront(rx, n)
    ensures StoredIn(mem, at + n, len - n, StreamDrop(rx, n))
    ensures StreamDrop(rx, 0) == rx
  {
    forall i | 0 <= i < n ensures mem[at..at + n][i] == StreamFront(rx, n)[i] {
      assert rx.base + i in rx.got;
    }
  }

  /** The fragment list and the stream agree on which offsets have arrived. */
  ghost predicate ListedIn(h: nat, fs: seq<Fragment>, rx: Rx) {
    forall k: nat :: rx.base + k in rx.got <==> Covers(h, fs, k)
  }

  /** The merged length is the longest run that can be read. */
  lemma MergedIsReadable(h: nat, fs: seq<Fragment>, size: nat, rx: Rx)
    requires Canonical(h, fs, size)
    requires ListedIn(h, fs, rx)
    ensures Readable(rx, MergedLen(h, fs))
  {
    HeadCovered(h, fs, size);
    if fs != [] && fs[0].seqno == h {
      forall k: nat | rx.base <= k < rx.base + fs[0].len ensures k in rx.got {
        assert fs[0] in fs && Holds(h, fs[0], k - rx.base);
        assert Covers(h, fs, k - rx.base);
      }
      assert !Covers(h, fs, fs[0].len);
    } else {
      assert rx.base + 0 !in rx.got;
    }
  }

  /** One read, seen from the fragment list. */
  lemma ReadStep(h: nat, fs: seq<Fragment>, size: nat, rx: Rx, len: nat, n: nat)
    requires Canonical(h, fs, size) && ListedIn(h, fs, rx) && EndsBy(h, fs, len)
    requires fs != [] && fs[0].seqno == h && n <= fs[0].len
    ensures var h', fs' := SeqAdd(h, n), Advance(fs, n);
      && Canonical(h', fs', size) && ListedIn(h', fs', StreamDrop(rx, n))
      && EndsBy(h', fs', len - n)
      && MergedLen(h', fs') == fs[0].len - n
  {
    hide InWindow, Lo;
    HeadCovered(h, fs, size);
    var h', fs' := SeqAdd(h, n), Advance(fs, n);
    AdvanceShifts(h, fs, n, size);
    EndsBoundCover(h, fs, size, len);
    forall k: nat ensures rx.base + n + k in rx.got <==> Covers(h', fs', k) {
      assert rx.base + (k + n) in rx.got <==> Covers(h, fs, k + n);
    }
    CoverBoundsEnds(h', fs', size, len - n);
    HeadCovered(h', fs', size);
    MergedIsReadable(h, fs, size, rx);
    assert Covers(h', fs', 0) <==> Covers(h, fs, 0 + n);
  }

  // ----- arrivals and reads -----

  datatype Event = Segment(off: nat, payload: seq<Byte>) | Read(n: nat)

  /** A segment begins and ends less than half the sequence space from the next byte to be read. */
  predicate NearHead(rx: Rx, e: Event) {
    e.Segment? ==> rx.base < e.off + HALF && e.off + |e.payload| < rx.base + HALF
  }

  lemma BeforeHead(rx: Rx, size: nat, off: nat, payload: seq<Byte>)
    ensures off < rx.base ==> StreamPut(rx, size, off, payload) == rx
  {
  }

  /** A segment never shortens what can be read. */
  lemma PutKeepsRun(rx: Rx, size: nat, off: nat, payload: seq<Byte>)
    ensures Run(StreamPut(rx, size, off, payload)) >= Run(rx)
  {
    hide Run;
    var r := StreamPut(rx, size, off, payload);
    assert rx.base + Run(r) !in rx.got;
  }

  lemma RunExtends(rx: Rx, n: nat)
    requires rx.base in rx.got && Readable(Rx(rx.base + 1, rx.got - {rx.base}), n)
    ensures Readable(rx, n + 1)
  {
    var got := rx.got - {rx.base};
    forall k: nat | rx.base <= k < rx.base + n + 1 ensures k in rx.got {
      assert k == rx.base || k in got;
    }
    assert rx.base + 1 + n !in got;
  }

  /** The number of bytes that can be read now. */
  ghost function Run(rx: Rx): (n: nat)
    ensures Readable(rx, n)
    decreases |rx.got|
  {
    if rx.base in rx.got then
      var rest := Rx(rx.base + 1, rx.got - {rx.base});
      RunExtends(rx, Run(rest));
      1 + Run(rest)
    else 0
  }

  ghost function Taken(rx: Rx, e: Event): nat {
    if e.Read? then Min(e.n, Run(rx)) else 0
  }

  ghost function Next(rx: Rx, size: nat, e: Event): Rx {
    match e
    case Segment(off, payload) => StreamPut(rx, size, off, payload)
    case Read(_) => StreamDrop(rx, Taken(rx, e))
  }

  // ----- fragment contexts -----

  /** Contexts 0 up to `made` exist, each either in `ctxs` or in `free`, once. */
  ghost predicate OnePlace(ctxs: seq<nat>, free: seq<nat>, made: nat) {
    forall id: nat :: multiset(ctxs + free)[id] == if id < made then 1 else 0
  }

  lemma FreeKeepsPlace(ctxs: seq<nat>, ctx: nat, free: seq<nat>, made: nat, ctxs': seq<nat>, freed: seq<nat>)
    requires OnePlace(ctxs + [ctx], free, made) && SameContexts(ctxs' + freed, ctxs + [ctx])
    ensures OnePlace(ctxs', free + freed, made)
  {
    assert multiset(ctxs' + (free + freed)) == multiset(ctxs' + freed) + multiset(free);
    assert multiset(ctxs + [ctx] + free) == multiset(ctxs + [ctx]) + multiset(free);
  }

  /** The listed and the free contexts after a read of `n` bytes: with all of its bytes read, the
      first fragment gives its context back. */
  function ListedAfter(fs: seq<Fragment>, ctxs: seq<nat>, n: nat): seq<nat>
    requires fs != [] && |ctxs| == |fs|
  {
    if n == fs[0].len then ctxs[1..] else ctxs
  }

  function FreeAfter(fs: seq<Fragment>, ctxs: seq<nat>, free: seq<nat>, n: nat): seq<nat>
    requires fs != [] && |ctxs| == |fs|
  {
    if n == fs[0].len then free + [ctxs[0]] else free
  }

  lemma ReadKeepsPlace(fs: seq<Fragment>, ctxs: seq<nat>, free: seq<nat>, made: nat, n: nat)
    requires fs != [] && |ctxs| == |fs| && OnePlace(ctxs, free, made)
    requires fs[0].seqno < SEQ_SPACE && n <= fs[0].len < SEQ_SPACE
    ensures |ListedAfter(fs, ctxs, n)| == |Advance(fs, n)|
    ensures OnePlace(ListedAfter(fs, ctxs, n), FreeAfter(fs, ctxs, free, n), made)
  {
    if n == fs[0].len {
      assert ctxs == [ctxs[0]] + ctxs[1..];
      assert multiset(ctxs[1..] + (free + [ctxs[0]])) == multiset(ctxs + free);
    }
  }

  lemma GivenBack(fs: seq<Fragment>, ctxs: seq<nat>, free: seq<nat>, n: nat)
    requires fs != [] && |ctxs| == |fs|
    ensures FreeAfter(fs, ctxs, free, n) == if n == fs[0].len then free + [ctxs[0]] else free
  {
  }

  lemma TakeKeepsPlace(ctxs: seq<nat>, free: seq<nat>, made: nat)
    requires OnePlace(ctxs, free, made)
    ensures free != [] ==> OnePlace(ctxs + [free[0]], free[1..], made)
    ensures free == [] ==> OnePlace(ctxs + [made], free, made + 1)
  {
    if free != [] {
      assert ctxs + free == ctxs + [free[0]] + free[1..];
    } else {
      assert ctxs + free == ctxs && ctxs + [made] + free == ctxs + [made];
    }
  }

  // ----- the buffer itself -----

  class RecvBuffer {
    const size: nat
    const initSeq: nat
    var data: array<Byte>
    var headOffset: nat
    var tailOffset: nat
    var mergedLen: nat
    var cumLen: nat
    var lastLen: nat
    var headSeq: nat
    var fctx: seq<Fragment>
    /** The contexts of the listed fragments, the free ones, and how many were ever made. */
    var ctxs: seq<nat>
    var free: seq<nat>
    var made: nat
    ghost var rx: Rx

    ghost predicate Shape()
      reads this, data
    {
      && data.Length == size && 0 < size < HALF - 1
      && initSeq < SEQ_SPACE && headSeq == Wire(initSeq, rx.base)
      && headOffset + lastLen == tailOffset <= size
      && Canonical(headSeq, fctx, size)
      && EndsBy(headSeq, fctx, lastLen)
    }

    ghost predicate Stored()
      reads this, data
    {
      StoredIn(data[..], headOffset, lastLen, rx)
    }

    ghost predicate Listed()
      reads this
    {
      ListedIn(headSeq, fctx, rx)
    }

    ghost predicate Counted()
      reads this
    {
      && mergedLen == MergedLen(headSeq, fctx)
      && cumLen == rx.base + mergedLen
    }

    /** Every context ever made is listed or free, and in one place only. */
    ghost predicate Owned()
      reads this
    {
      |ctxs| == |fctx| && OnePlace(ctxs, free, made)
    }

    ghost predicate Valid()
      reads this, data
    {
      Shape() && Stored() && Listed() && Counted() && Owned()
    }

    constructor (initSeq: nat, chunkSize: nat)
      requires initSeq < SEQ_SPACE && 0 < chunkSize < HALF - 1
      ensures Valid() && fresh(data) && rx == Rx(0, map[])
      ensures this.initSeq == initSeq && size == chunkSize
    {
      this.initSeq, size, headSeq := initSeq, chunkSize, initSeq;
      headOffset, tailOffset, mergedLen, cumLen, lastLen := 0, 0, 0, 0, 0;
      fctx, rx := [], Rx(0, map[]);
      ctxs, free, made := [], [], 0;
      data := new Byte[chunkSize](_ => 0);
    }

    /** Moves the stored bytes to the start of the chunk. */
    method Compact()
      requires Valid()
      modifies this`tailOffset, this`headOffset, data
      ensures Valid() && headOffset == 0
    {
      hide SeqAdd, Lo, Hi, InWindow, Canonical, Covers, StoredIn, OnePlace, Wire, EndsBy, MergedLen;
      ghost var mem := data[..];
      MoveDown(data, headOffset, lastLen);
      MoveStores(mem, data[..], headOffset, lastLen, rx);
      tailOffset := tailOffset - headOffset;
      headOffset := 0;
    }

    method WriteAt(at: nat, payload: seq<Byte>)
      requires at + |payload| <= data.Length
      modifies data
      ensures Overwritten(old(data[..]), data[..], at, payload)
    {
      forall i | 0 <= i < |payload| {
        data[at + i] := payload[i];
      }
    }

    /** Copies a segment into the chunk; the bytes stored before and not overwritten stay. */
    method CopyIn(putx: nat, payload: seq<Byte>)
      requires Shape() && Stored() && headOffset + putx + |payload| <= size && payload != []
      modifies this`tailOffset, this`lastLen, this`rx, data
      ensures Shape() && Stored() && lastLen >= putx + |payload|
      ensures rx == StreamPut(old(rx), size, old(rx).base + putx, payload)
    {
      hide SeqAdd, Lo, Hi, InWindow, Canonical, StoredIn, Overwritten, StreamPut, OnePlace, Wire, EndsBy;
      ghost var mem, len := data[..], lastLen;
      WriteAt(headOffset + putx, payload);
      if tailOffset < headOffset + putx + |payload| {
        tailOffset := headOffset + putx + |payload|;
      }
      lastLen := tailOffset - headOffset;
      EndsByMore(headSeq, fctx, len, lastLen);
      WriteStores(mem, data[..], headOffset, len, lastLen, rx, size, putx, payload);
      rx := StreamPut(rx, size, rx.base + putx, payload);
    }

    /** AllocateFragmentContext: a free context if there is one, else a new one. */
    method Allocate() returns (ctx: nat)
      requires OnePlace(ctxs, free, made)
      modifies this`free, this`made
      ensures OnePlace(ctxs + [ctx], free, made)
    {
      hide OnePlace;
      TakeKeepsPlace(ctxs, free, made);
      if free != [] {
        ctx := free[0];
        free := free[1..];
      } else {
        ctx := made;
        made := made + 1;
      }
    }

    /** The new segment's context, and its range in the fragment list. */
    method EnterRange(cur: Fragment)
      requires Shape() && Stored() && Owned() && InWindow(headSeq, cur, size)
      requires Hi(headSeq, cur) <= lastLen
      requires forall k: nat :: rx.base + k in rx.got <==> Covers(headSeq, fctx, k) || Holds(headSeq, cur, k)
      modifies this`fctx, this`ctxs, this`free, this`made
      ensures Shape() && Stored() && Owned() && Listed() && fctx != []
      ensures Covers(headSeq, old(fctx), 0) ==> Covers(headSeq, fctx, 0)
    {
      hide SeqAdd, SeqSub, InWindow, Canonical, Covers, Holds, OnePlace, SameContexts, Wire, EndsBy;
      var ctx := Allocate();
      var fs, cs, freed := InsertFragment(headSeq, size, fctx, cur, ctxs, ctx);
      FreeKeepsPlace(ctxs, ctx, free, made, cs, freed);
      forall k: nat | Covers(headSeq, fs, k) ensures k < lastLen {
        assert rx.base + k in rx.got;
      }
      CoverBoundsEnds(headSeq, fs, size, lastLen);
      fctx, ctxs, free := fs, cs, free + freed;
    }

    /** Enters the range of the new segment in the fragment list and moves the merged mark. */
    method Record(cur: Fragment)
      requires Shape() && Stored() && Counted() && Owned() && InWindow(headSeq, cur, size)
      requires Hi(headSeq, cur) <= lastLen
      requires forall k: nat :: rx.base + k in rx.got <==> Covers(headSeq, fctx, k) || Holds(headSeq, cur, k)
      modifies this`fctx, this`cumLen, this`mergedLen, this`ctxs, this`free, this`made
      ensures Valid()
    {
      hide StoredIn, ListedIn, OnePlace, SeqAdd, SeqSub, InWindow, Canonical, Covers, Holds, Wire, EndsBy;
      HeadCovered(headSeq, fctx, size);
      EnterRange(cur);
      HeadCovered(headSeq, fctx, size);
      if headSeq == fctx[0].seqno {
        cumLen := cumLen + fctx[0].len - mergedLen;
        mergedLen := fctx[0].len;
      }
    }

    /** RBPut. The sequence number stands for the stream offset that far beyond the head. */
    method Put(payload: seq<Byte>, curSeq: nat) returns (r: int)
      requires Valid() && curSeq < SEQ_SPACE
      // The int arithmetic of the source: callers keep the end of a segment within
      // half the sequence space of the head.
      requires GetMinSeq(headSeq, curSeq) == headSeq ==> SeqSub(curSeq, headSeq) + |payload| < HALF
      modifies this, data
      ensures Valid() && data == old(data) && headSeq == old(headSeq)
      ensures GetMinSeq(headSeq, curSeq) == headSeq ==>
        var off := old(rx).base + SeqSub(curSeq, headSeq);
        && rx == StreamPut(old(rx), size, off, payload)
        && (if payload == [] then r == 0 else if Accepts(old(rx), size, off, payload) then r == |payload| else r == -2)
      ensures GetMinSeq(headSeq, curSeq) != headSeq ==> rx == old(rx) && r == 0
    {
      hide SeqAdd, SeqSub, GetMinSeq, Canonical, Covers, Stored, OnePlace, Wire, EndsBy, MergedLen;
      if |payload| == 0 { return 0; }
      if GetMinSeq(headSeq, curSeq) != headSeq { return 0; }
      var putx := SeqSub(curSeq, headSeq);
      var endOff := putx + |payload|;
      if size < endOff { return -2; }
      if size <= headOffset + endOff {
        Compact();
      }
      CopyIn(putx, payload);
      Record(Fragment(curSeq, |payload|));
      r := |payload|;
    }

    /** The updates of RBRemove. */
    method Consume(n: nat)
      requires Valid() && 0 < n <= mergedLen
      modifies this`headOffset, this`headSeq, this`mergedLen, this`lastLen, this`ctxs, this`free, this`fctx, this`rx
      ensures Valid() && rx == StreamDrop(old(rx), n) && mergedLen == old(mergedLen) - n
      ensures old(ctxs) != [] && free == if n == old(mergedLen) then old(free) + [old(ctxs)[0]] else old(free)
    {
      hide SeqAdd, SeqSub, Lo, Hi, InWindow, Canonical, ListedIn, StoredIn, StreamFront, StreamDrop, OnePlace, Wire,
        Advance, ListedAfter, FreeAfter, EndsBy, MergedLen, Readable;
      MergedIsReadable(headSeq, fctx, size, rx);
      HeadCovered(headSeq, fctx, size);
      MergedEndsBy(headSeq, fctx, size, lastLen);
      ReadableShorter(rx, mergedLen, n);
      DropStores(data[..], headOffset, lastLen, rx, n);
      ReadStep(headSeq, fctx, size, rx, lastLen, n);
      WrapAdd(initSeq, rx.base, n);
      ReadKeepsPlace(fctx, ctxs, free, made, n);
      GivenBack(fctx, ctxs, free, n);
      headOffset := headOffset + n;
      headSeq := SeqAdd(headSeq, n);
      mergedLen := mergedLen - n;
      lastLen := lastLen - n;
      ctxs, free := ListedAfter(fctx, ctxs, n), FreeAfter(fctx, ctxs, free, n);
      fctx := Advance(fctx, n);
      rx := StreamDrop(rx, n);
    }

    /** RBRemove together with the copy to the reader that precedes it. A context is given back exactly
        when the fragment at the head is used up, and there is none at the head then. */
    method Remove(len: nat) returns (n: nat, out: seq<Byte>)
      requires Valid()
      modifies this
      ensures Valid() && data == old(data) && mergedLen == old(mergedLen) - n
      ensures if 0 < n == old(mergedLen) then old(ctxs) != [] && free == old(free) + [old(ctxs)[0]] else free == old(free)
      ensures Readable(old(rx), old(mergedLen)) && n == Min(len, old(mergedLen))
      ensures out == StreamFront(old(rx), n) && rx == StreamDrop(old(rx), n)
    {
      hide SeqAdd, SeqSub, Canonical, ListedIn, StoredIn, StreamFront, StreamDrop, OnePlace, Wire, EndsBy, MergedLen;
      MergedIsReadable(headSeq, fctx, size, rx);
      MergedEndsBy(headSeq, fctx, size, lastLen);
      n := if mergedLen < len then mergedLen else len;
      out := data[headOffset..headOffset + n];
      DropStores(data[..], headOffset, lastLen, rx, n);
      if n == 0 {
        return;
      }
      Consume(n);
    }

    /** ProcessTCPPayload: segments that fail the window test are dropped, the rest go to Put. `ret`
        is what Put returned, and the window is what it sets for the next segment. With a window
        that ends inside the buffer, Put refuses nothing. */
    method ProcessPayload(payload: seq<Byte>, curSeq: nat, wnd: nat) returns (rcvNxt: nat, rcvWnd: nat, ret: int)
      requires Valid() && curSeq < SEQ_SPACE && |payload| <= 65535 && mergedLen + wnd < HALF
      modifies this, data
      ensures Valid() && data == old(data) && headSeq == old(headSeq)
      ensures rx == if WindowTest(headSeq, old(mergedLen), wnd, curSeq, |payload|) && GetMinSeq(headSeq, curSeq) == headSeq
                    then StreamPut(old(rx), size, old(rx).base + SeqSub(curSeq, headSeq), payload)
                    else old(rx)
      ensures rcvNxt == Wire(initSeq, rx.base + mergedLen) && Readable(rx, mergedLen)
      ensures mergedLen <= size
      ensures rcvWnd == if WindowTest(headSeq, old(mergedLen), wnd, curSeq, |payload|) then size - mergedLen else wnd
      ensures old(mergedLen) + wnd <= size ==> ret != -2
    {
      hide SeqAdd, SeqSub, Lo, Hi, InWindow, Canonical, Covers, StoredIn, StreamPut, GetMinSeq, WindowTest, OnePlace,
        Wire, EndsBy, MergedLen;
      HeadCovered(headSeq, fctx, size);
      WindowBoundsEnd(headSeq, mergedLen, wnd, curSeq, |payload|);
      ret, rcvWnd := 0, wnd;
      if WindowTest(headSeq, mergedLen, wnd, curSeq, |payload|) {
        WindowFits(headSeq, mergedLen, wnd, curSeq, |payload|);
        ret := Put(payload, curSeq);
        MergedEndsBy(headSeq, fctx, size, lastLen);
        rcvWnd := size - mergedLen;
      }
      MergedEndsBy(headSeq, fctx, size, lastLen);
      HeadCovered(headSeq, fctx, size);
      MergedIsReadable(headSeq, fctx, size, rx);
      WrapAdd(initSeq, rx.base, mergedLen);
      rcvNxt := SeqAdd(headSeq, mergedLen);
    }

    /** A segment at stream offset `off`, as its sequence number arrives. */
    method PutAt(off: nat, payload: seq<Byte>)
      requires Valid() && NearHead(rx, Segment(off, payload))
      modifies this, data
      ensures Valid() && data == old(data) && rx == Next(old(rx), size, Segment(off, payload))
      ensures mergedLen >= old(mergedLen)
    {
      hide Wire, GetMinSeq, SeqSub, Shape, Stored, Listed, Counted, Owned, StreamPut, Run;
      HeadIsWire();
      MergedIsRun();
      WireOrder(initSeq, rx.base, off);
      BeforeHead(rx, size, off, payload);
      PutKeepsRun(rx, size, off, payload);
      var _ := Put(payload, Wire(initSeq, off));
      MergedIsRun();
    }

    lemma HeadIsWire()
      requires Valid()
      ensures initSeq < SEQ_SPACE && headSeq == Wire(initSeq, rx.base) && 0 < size < HALF - 1
    {
    }

    lemma MergedIsRun()
      requires Valid()
      ensures mergedLen == Run(rx) <= size
    {
      hide SeqAdd, SeqSub, Canonical, ListedIn, StoredIn, OnePlace, Wire, EndsBy, MergedLen, Run;
      MergedIsReadable(headSeq, fctx, size, rx);
      MergedEndsBy(headSeq, fctx, size, lastLen);
      ReadableUnique(rx, mergedLen, Run(rx));
    }

    /** A read of up to `n` bytes. */
    method ReadUpTo(n: nat) returns (out: seq<Byte>)
      requires Valid()
      modifies this
      ensures Valid() && data == old(data) && rx == Next(old(rx), size, Read(n))
      ensures out == StreamFront(old(rx), Taken(old(rx), Read(n)))
    {
      hide Valid, Readable, StreamFront, StreamDrop, Run;
      MergedIsRun();
      var _, bytes := Remove(n);
      out := bytes;
    }
  }

  /** The end of the segment is neither before the next expected byte nor past the window,
      by the signed differences of the TCP_SEQ_LT and TCP_SEQ_GT macros. */
  predicate WindowTest(h: nat, merged: nat, wnd: nat, curSeq: nat, len: nat)
    requires h < SEQ_SPACE && curSeq < SEQ_SPACE && len <= 65535 && merged + wnd < HALF
  {
    var end, next := SeqAdd(curSeq, len), SeqAdd(h, merged);
    SeqSub(end, next) < HALF && !(0 < SeqSub(end, SeqAdd(next, wnd)) < HALF)
  }

  /** Segments that pass never overflow the int arithmetic of RBPut ... */
  lemma WindowBoundsEnd(h: nat, merged: nat, wnd: nat, curSeq: nat, len: nat)
    requires h < SEQ_SPACE && curSeq < SEQ_SPACE && len <= 65535 && merged + wnd < HALF
    ensures WindowTest(h, merged, wnd, curSeq, len) && GetMinSeq(h, curSeq) == h ==> SeqSub(curSeq, h) + len < HALF
  {
  }

  /** ... and, for a segment at or after the head, passing is ending inside the window. */
  lemma WindowTestIsWindow(h: nat, merged: nat, wnd: nat, x: nat, len: nat)
    requires h < SEQ_SPACE && x < HALF && len <= 65535 && merged + wnd < HALF
    ensures GetMinSeq(h, SeqAdd(h, x)) == h
    ensures WindowTest(h, merged, wnd, SeqAdd(h, x), len) <==> merged <= x + len <= merged + wnd
  {
  }

  /** Inside the buffer's own window nothing that is kept ends past the buffer. */
  lemma WindowFits(h: nat, merged: nat, wnd: nat, curSeq: nat, len: nat)
    requires h < SEQ_SPACE && curSeq < SEQ_SPACE && len <= 65535 && merged + wnd < HALF
    ensures WindowTest(h, merged, wnd, curSeq, len) && GetMinSeq(h, curSeq) == h ==> SeqSub(curSeq, h) + len <= merged + wnd
  {
  }
}
